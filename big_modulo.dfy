/** `divideStrings` and `Mod` of bigNumber.go. divideStrings normalises both
  * texts to the same number of fraction places and runs the same
  * long-division loop as `Divide`, by the value of the first symbol of the
  * divisor; it returns the trimmed quotient and the last remainder written
  * as one symbol. `Mod` returns that remainder. */
module BigModulo {
  import opened Outcomes
  import opened GoStrings
  import opened BigDigits
  import opened BigNumbers
  import opened BigAddSub
  import opened BigValues
  import opened BigMultiply
  import opened BigDivide
  import opened BigCompare
  import opened BigSigned
  import opened BigProduct

  // ---------------------------------------------------------------------
  // divideStrings and Mod as written

  /** The quotient text of divideStrings: the separator put back maxDecimal
    * symbols from the right, then trailing "0"s and a bare trailing
    * separator trimmed. */
  function StringsQuotientText(digits: string, sep: char, maxDecimal: int): string
  {
    TrimFraction(InsertDecimalPoint(digits, maxDecimal, sep), sep)
  }

  /** The remainder of divideStrings: NewBigNumber of the one symbol toNumber
    * writes for it. */
  function RemainderNumber(c: Config, remainder: nat): BigNumber
    requires remainder < |c.alphabet|
  {
    NewBigNumber([ToNumber(c.alphabet, remainder)])
  }

  /** What `divideStrings` returns for the texts of a and b read in a's
    * configuration: a panic for the divisor text "0", the runtime's panic
    * when the loop runs and divides by a lead digit of 0, and otherwise the
    * quotient and the remainder of the loop. */
  function DivideStringsResult(a: BigNumber, b: BigNumber): Outcome<(BigNumber, BigNumber)>
    requires MultiplyOperands(a, b)
  {
    var c := a.format;
    var num1 := PaddedDigits(c, a.value, CommonPlaces(c, a, b));
    var n := DivideSteps(a, b);
    var lead := LeadDigit(c, b);
    if b.value == "0" then Panic("division by zero")
    else if lead == 0 && n > 0 then Panic("integer divide by zero")
    else
      var digits := if n > 0 then Quotient(c.alphabet, c.base, num1, lead, n) else [];
      var remainder := if n > 0 then ModBy(Leading(c.alphabet, c.base, num1, n), lead) else 0;
      Done((NewBigNumber(StringsQuotientText(digits, c.decimalSeparator, c.maxDecimal)), RemainderNumber(c, remainder)))
  }

  /** `divideStrings` as written: normalizeDecimal, the split, the shift (no
    * longer needed after normalising), the loop, and the quotient and
    * remainder texts. */
  method DivideStrings(a: BigNumber, b: BigNumber) returns (r: Outcome<(BigNumber, BigNumber)>)
    requires MultiplyOperands(a, b)
    ensures r == DivideStringsResult(a, b)
  {
    if b.value == "0" {
      return Panic("division by zero");
    }
    var c := a.format;
    var sep := c.decimalSeparator;
    var num1, num2 := StringsOperandTexts(a, b);
    var n := |num1| + c.maxDecimal;
    var lead := Digit(c.alphabet, num2[0]);
    if lead == 0 && n > 0 {
      return Panic("integer divide by zero");
    }
    assert lead == LeadDigit(c, b) && n == DivideSteps(a, b);
    var quotient, remainder := LongDivision(c.alphabet, c.base, num1, lead, n);
    quotient := InsertDecimalPoint(quotient, c.maxDecimal, sep);
    quotient := TrimRight(quotient, '0');
    if HasSuffix(quotient, [sep]) {
      quotient := TrimSuffix(quotient, [sep]);
    }
    r := Done((NewBigNumber(quotient), NewBigNumber([ToNumber(c.alphabet, remainder)])));
  }

  /** The first lines of divideStrings: both texts normalised to the same
    * fraction length, split, joined without the separator, and the shorter
    * fraction padded (which after normalising changes nothing). */
  method StringsOperandTexts(a: BigNumber, b: BigNumber) returns (num1: string, num2: string)
    requires MultiplyOperands(a, b)
    ensures var c, f := a.format, CommonPlaces(a.format, a, b);
      num1 == PaddedDigits(c, a.value, f) && num2 == PaddedDigits(c, b.value, f) &&
      num2[0] == IntPart(c, b.value)[0]
  {
    var c := a.format;
    var sep := c.decimalSeparator;
    num1, num2 := NormalizeDecimal(a.value, b.value, sep).0, NormalizeDecimal(a.value, b.value, sep).1;
    var intPart1, decPart1 := SplitDecimal(num1, sep).0, SplitDecimal(num1, sep).1;
    var intPart2, decPart2 := SplitDecimal(num2, sep).0, SplitDecimal(num2, sep).1;
    var lenDec1, lenDec2 := |decPart1|, |decPart2|;
    num1 := intPart1 + decPart1;
    num2 := intPart2 + decPart2;
    var shift := lenDec2 - lenDec1;
    if shift > 0 {
      num1 := num1 + Repeat('0', shift);
    } else if shift < 0 {
      num2 := num2 + Repeat('0', -shift);
    }
    NormalizedDigits(c, a.value, b.value);
  }

  /** normalizeDecimal read back: each text splits into its integer part and
    * its fraction padded to f symbols, which joined are its padded digits. */
  lemma NormalizedDigits(c: Config, v1: string, v2: string)
    requires WellFormed(c, v1) && WellFormed(c, v2)
    ensures var f, sep := Max(|FracPart(c, v1)|, |FracPart(c, v2)|), c.decimalSeparator;
      var (n1, n2) := NormalizeDecimal(v1, v2, sep);
      |SplitDecimal(n1, sep).1| == f && |SplitDecimal(n2, sep).1| == f &&
      SplitDecimal(n1, sep).0 + SplitDecimal(n1, sep).1 == PaddedDigits(c, v1, f) &&
      SplitDecimal(n2, sep).0 + SplitDecimal(n2, sep).1 == PaddedDigits(c, v2, f)
  {
    var f := Max(|FracPart(c, v1)|, |FracPart(c, v2)|);
    NormalizeDecimalParts(c, v1, v2);
    PadFractionSplit(c, v1, f);
    PadFractionSplit(c, v2, f);
  }

  /** What `Mod` returns: a panic for the divisor text "0", and otherwise
    * what divideStrings gives for the remainder. */
  function ModResult(a: BigNumber, b: BigNumber): Outcome<BigNumber>
    requires MultiplyOperands(a, b)
  {
    if b.value == "0" then Panic("division by zero")
    else
      match DivideStringsResult(a, b)
      case Panic(m) => Panic(m)
      case Done(p) => Done(p.1)
  }

  /** `Mod` as written. */
  method Mod(a: BigNumber, b: BigNumber) returns (r: Outcome<BigNumber>)
    requires MultiplyOperands(a, b)
    ensures r == ModResult(a, b)
  {
    if b.value == "0" {
      return Panic("division by zero");
    }
    var qr := DivideStrings(a, b);
    match qr
    case Panic(m) => r := Panic(m);
    case Done(p) => r := Done(p.1);
  }

  // ---------------------------------------------------------------------
  // What Mod yields

  /** NewBigNumber of the one symbol of a digit d: a well-formed,
    * non-negative number without fraction, worth d. */
  lemma SymbolNumber(c: Config, d: nat)
    requires DotConfig(c) && d < c.base
    ensures var r := RemainderNumber(c, d);
      r.sign == 1 && WellFormed(c, r.value) && |FracPart(c, r.value)| == 0 && Scaled(c, r.value, 0) == d
  {
    var u := [ToNumber(c.alphabet, d)];
    assert u[0] == c.alphabet[..c.base][d];
    assert IsDigits(c.alphabet, c.base, u);
    WellFormedOf(c, u, []);
    NewBigNumberOfText(c, u);
    DigitOfSymbol(c.alphabet, c.base, d);
    assert DigitsOf(c, u) == u && u[..0] == [];
    ScaledNoPad(c, NewBigNumber(u).value, 0);
  }

  /** The remainder of the loop after n = |num1| + k steps: the value x of
    * num1 followed by k "0"s, modulo the divisor. */
  lemma RemainderOfWidened(alphabet: string, base: nat, num1: string, divisor: nat, k: nat, n: nat, x: nat)
    requires divisor >= 1 && n == |num1| + k && x == Val(alphabet, base, num1)
    ensures ModBy(Leading(alphabet, base, num1, n), divisor) == ModBy(Widened(x, base, k), divisor)
  {
    LeadingValue(alphabet, base, num1, k);
  }

  /** `Mod` takes the remainder by the lead digit of the divisor: for
    * well-formed operands in one configuration with maxDecimal >= 0, a
    * divisor text other than "0" whose first symbol is not "0", the result
    * is the one-symbol number (see SymbolNumber) of the dividend scaled to
    * f and followed by maxDecimal "0"s, modulo that one digit. */
  lemma ModValueIn(a: BigNumber, b: BigNumber)
    requires SameDotConfig(a, b) && a.format.maxDecimal >= 0
    requires b.value != "0" && LeadDigit(a.format, b) != 0
    ensures MultiplyOperands(a, b) && LeadDigit(a.format, b) < a.format.base
    ensures var c, f := a.format, CommonPlaces(a.format, a, b);
      ModResult(a, b) == Done(RemainderNumber(c, ModBy(Widened(Scaled(c, a.value, f), c.base, c.maxDecimal), LeadDigit(c, b))))
  {
    var c, f := a.format, CommonPlaces(a.format, a, b);
    var num1 := PaddedDigits(c, a.value, f);
    PaddedDigitsValue(c, a.value, f);
    ModResultIs(a, b);
    DigitBelowLead(c, b);
    RemainderOfWidened(c.alphabet, c.base, num1, LeadDigit(c, b), c.maxDecimal, DivideSteps(a, b), Scaled(c, a.value, f));
  }

  /** When the loop runs and the divisor's first symbol is not "0", Mod
    * returns the loop's last remainder as one symbol. */
  lemma ModResultIs(a: BigNumber, b: BigNumber)
    requires MultiplyOperands(a, b) && b.value != "0" && LeadDigit(a.format, b) != 0 && DivideSteps(a, b) > 0
    ensures var c := a.format;
      var num1 := PaddedDigits(c, a.value, CommonPlaces(c, a, b));
      ModResult(a, b) == Done(RemainderNumber(c, ModBy(Leading(c.alphabet, c.base, num1, DivideSteps(a, b)), LeadDigit(c, b))))
  {
  }

  /** The lead digit of a well-formed divisor is a digit of the base. */
  lemma DigitBelowLead(c: Config, b: BigNumber)
    requires WellFormed(c, b.value)
    ensures LeadDigit(c, b) < c.base
  {
    var s := IntPart(c, b.value)[0];
    assert s in c.alphabet[..c.base];
    var d :| 0 <= d < c.base && c.alphabet[d] == s;
    DigitOfSymbol(c.alphabet, c.base, d);
  }

  // ---------------------------------------------------------------------
  // Mod, corrected

  /** Mod as evidently intended: the remainder of the dividend by the whole
    * divisor, both scaled to the common fraction places f, written with f
    * fraction places, with the sign of the dividend; only a divisor worth 0
    * panics. */
  function ModFixed(a: BigNumber, b: BigNumber): Outcome<BigNumber>
    requires MultiplyOperands(a, b)
  {
    var c := a.format;
    var f := CommonPlaces(c, a, b);
    var divisor := Scaled(c, b.value, f);
    if divisor == 0 then Panic("division by zero")
    else
      var digits := Represent(c.alphabet, c.base, ModBy(Scaled(c, a.value, f), divisor), |PaddedDigits(c, b.value, f)|);
      Done(NewBigNumber(InsertDecimalPoint(digits, f, c.decimalSeparator)).(sign := a.sign))
  }

  /** The corrected Mod panics exactly for a divisor worth 0; otherwise its
    * result has the dividend's sign, is well formed with f fraction
    * symbols, and scaled to them is below the divisor and completes the
    * division: dividend = quotient * divisor + remainder, all scaled to f. */
  lemma ModFixedValue(a: BigNumber, b: BigNumber)
    requires SameDotConfig(a, b)
    ensures MultiplyOperands(a, b)
    ensures ModFixed(a, b).Panic? <==> Scaled(a.format, b.value, CommonPlaces(a.format, a, b)) == 0
    ensures var c, f := a.format, CommonPlaces(a.format, a, b);
      Scaled(c, b.value, f) != 0 ==>
        var r := ModFixed(a, b).value;
        r.sign == a.sign && WellFormed(c, r.value) && |FracPart(c, r.value)| == f &&
        Scaled(c, r.value, f) == ModBy(Scaled(c, a.value, f), Scaled(c, b.value, f)) &&
        Scaled(c, r.value, f) < Scaled(c, b.value, f) &&
        Scaled(c, a.value, f) == DivBy(Scaled(c, a.value, f), Scaled(c, b.value, f)) * Scaled(c, b.value, f) + Scaled(c, r.value, f)
  {
    var c, f := a.format, CommonPlaces(a.format, a, b);
    if Scaled(c, b.value, f) != 0 {
      var num2 := PaddedDigits(c, b.value, f);
      var x := ModBy(Scaled(c, a.value, f), Scaled(c, b.value, f));
      PaddedDigitsValue(c, b.value, f);
      ValBound(c.alphabet, c.base, num2);
      RepresentDigits(c.alphabet, c.base, x, |num2|);
      ValRepresent(c.alphabet, c.base, x, |num2|);
      var digits := Represent(c.alphabet, c.base, x, |num2|);
      PlacedNumber(c, digits, f, InsertDecimalPoint(digits, f, c.decimalSeparator), x);
      DivModSplit(Scaled(c, a.value, f), Scaled(c, b.value, f));
    }
  }

  // ---------------------------------------------------------------------
  // Finding

  /** As written, a dividend worth 1 modulo a divisor whose first symbol is
    * worth 1 is 0. */
  lemma OneModTenWritten(a: BigNumber, b: BigNumber)
    requires SameDotConfig(a, b) && a.format.maxDecimal >= 0 && b.value != "0"
    requires Scaled(a.format, a.value, CommonPlaces(a.format, a, b)) == 1 && LeadDigit(a.format, b) == 1
    ensures ModResult(a, b) == Done(RemainderNumber(a.format, 0))
  {
    ModValueIn(a, b);
    AnyModOne(Widened(Scaled(a.format, a.value, CommonPlaces(a.format, a, b)), a.format.base, a.format.maxDecimal), LeadDigit(a.format, b));
  }

  /** Every number modulo 1 is 0. */
  lemma AnyModOne(x: nat, d: nat)
    requires d == 1
    ensures ModBy(x, d) == 0
  {
  }

  /** Corrected, a dividend worth 1 modulo a divisor worth base is 1. */
  lemma OneModTenFixed(a: BigNumber, b: BigNumber)
    requires SameDotConfig(a, b) && CommonPlaces(a.format, a, b) == 0
    requires Scaled(a.format, a.value, 0) == 1 && Scaled(a.format, b.value, 0) == a.format.base
    ensures ModFixed(a, b).Done? && |FracPart(a.format, ModFixed(a, b).value.value)| == 0 &&
      Scaled(a.format, ModFixed(a, b).value.value, 0) == 1
  {
    ModFixedValue(a, b);
    OneModBase(Scaled(a.format, a.value, 0), Scaled(a.format, b.value, 0));
  }

  /** 1 modulo a divisor of at least 2 is 1. */
  lemma OneModBase(x: nat, d: nat)
    requires x == 1 && d >= 2
    ensures ModBy(x, d) == 1
  {
  }

  /** "1" modulo "10" is "0" as written, since only the first symbol of the
    * divisor is used; corrected it is worth 1. */
  lemma ModOneByTen(c: Config)
    requires DotConfig(c) && Starts012(c) && c.maxDecimal >= 0
    ensures var a, b := BigNumber("1", c, 1), BigNumber("10", c, 1);
      SameDotConfig(a, b) && ModResult(a, b).Done? && ModResult(a, b).value.value == "0" &&
      ModFixed(a, b).Done? && |FracPart(c, ModFixed(a, b).value.value)| == 0 && Scaled(c, ModFixed(a, b).value.value, 0) == 1
  {
    var a, b := BigNumber("1", c, 1), BigNumber("10", c, 1);
    OneTenOperands(c);
    OneModTenWritten(a, b);
    OneModTenFixed(a, b);
    ZeroSymbolNumber(c);
  }

  /** The one-symbol number of the digit 0 is "0". */
  lemma ZeroSymbolNumber(c: Config)
    requires ValidConfig(c)
    ensures RemainderNumber(c, 0).value == "0"
  {
    var u := [ToNumber(c.alphabet, 0)];
    assert u == "0";
    assert !HasPrefix(u, "-") by {
      assert u[..1][0] == u[0];
    }
    assert TrimLeft(u, '0') == [] by {
      assert u[1..] == [];
    }
  }
}
