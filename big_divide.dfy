/** `Divide` of bigNumber.go: both operands written without the separator
  * on the same number of fraction places, then a long-division loop that
  * brings down one symbol at a time (a "0" past the end of the dividend,
  * maxDecimal times) and divides by a single digit: the value of the first
  * symbol of the divisor, not the whole divisor. The loop is proved to
  * write the representation of the quotient of the digits read so far by
  * that digit and to keep their remainder. */
module BigDivide {
  import opened Outcomes
  import opened GoStrings
  import opened BigDigits
  import opened BigNumbers
  import opened BigAddSub
  import opened BigValues
  import opened BigMultiply
  import opened BigCompare
  import opened BigSigned

  // ---------------------------------------------------------------------
  // The long-division loop

  /** The digit the loop brings down at step i: the symbol's value inside
    * the dividend, 0 past its end. */
  function DividendDigit(alphabet: string, num: string, i: nat): nat
  {
    if i < |num| then Digit(alphabet, num[i]) else 0
  }

  /** The number made of the first i digits the loop brings down. */
  function Leading(alphabet: string, base: nat, num: string, i: nat): nat
  {
    if i == 0 then 0 else Leading(alphabet, base, num, i - 1) * base + DividendDigit(alphabet, num, i - 1)
  }

  /** Integer division by a positive divisor, named so that the solver
    * meets it only where a proof unfolds it. */
  function DivBy(x: nat, divisor: nat): (q: nat)
    requires divisor >= 1
  {
    DivModSplit(x, divisor);
    x / divisor
  }

  /** The remainder that goes with DivBy. */
  function ModBy(x: nat, divisor: nat): (r: nat)
    requires divisor >= 1
    ensures r < divisor
  {
    x % divisor
  }

  /** One step of long division: with W = q * D + r, bringing down d gives
    * W * base + d = (q * base + t / D) * D + t % D for t = r * base + d, and
    * t / D is a digit. */
  lemma DivisionStep(w: nat, d: nat, base: nat, divisor: nat)
    requires divisor >= 1 && d < base
    ensures var t := ModBy(w, divisor) * base + d;
      DivBy(w * base + d, divisor) == DivBy(w, divisor) * base + DivBy(t, divisor) &&
      ModBy(w * base + d, divisor) == ModBy(t, divisor) && DivBy(t, divisor) < base
  {
    var q, r := w / divisor, w % divisor;
    DivModSplit(w, divisor);
    var t := r * base + d;
    assert w * base + d == (q * base) * divisor + t by {
      assert w * base == (q * divisor) * base + r * base;
      assert (q * divisor) * base == (q * base) * divisor;
    }
    DivModSplit(t, divisor);
    var u, v := t / divisor, t % divisor;
    assert w * base + d == (q * base + u) * divisor + v by {
      assert (q * base) * divisor + u * divisor == (q * base + u) * divisor;
    }
    DivModUnique(w * base + d, divisor, q * base + u, v);
    assert t < divisor * base by {
      MulLeInt(r + 1, divisor, base);
    }
    if u >= base {
      MulLeInt(base, u, divisor);
    }
  }

  /** After a step, the quotient of the digits read so far is one symbol
    * longer: the old quotient followed by the new quotient digit. */
  lemma QuotientStep(alphabet: string, base: nat, num: string, divisor: nat, i: nat, remainder: nat, d: nat)
    requires 2 <= base <= |alphabet| && divisor >= 1
    requires remainder == ModBy(Leading(alphabet, base, num, i), divisor)
    requires d == DividendDigit(alphabet, num, i) && d < base
    ensures var t := remainder * base + d;
      DivBy(t, divisor) < base &&
      Quotient(alphabet, base, num, divisor, i + 1) ==
        Quotient(alphabet, base, num, divisor, i) +
        [ToNumber(alphabet, DivBy(t, divisor))] &&
      ModBy(Leading(alphabet, base, num, i + 1), divisor) == ModBy(t, divisor)
  {
    var w := Leading(alphabet, base, num, i);
    var t := remainder * base + d;
    assert Leading(alphabet, base, num, i + 1) == w * base + d;
    DivisionStep(w, d, base, divisor);
    QuotRemOf(DivBy(w * base + d, divisor), base, DivBy(w, divisor), DivBy(t, divisor));
    RepresentStep(alphabet, base, DivBy(w * base + d, divisor), i + 1, i);
  }

  /** A digit of a digit string is below the base. */
  lemma DividendDigitBelow(alphabet: string, base: nat, num: string, i: nat)
    requires IsDigits(alphabet, base, num)
    ensures DividendDigit(alphabet, num, i) < base || (base == 0 && DividendDigit(alphabet, num, i) == 0)
  {
    if i < |num| {
      DigitBelowBase(alphabet, base, num[i]);
    }
  }

  /** The loop of `Divide` and `divideStrings`: n steps, each bringing down
    * the next digit of num1 (0 past its end), writing the quotient digit of
    * the remainder so far and keeping the new remainder. With at least one
    * step it writes the n-symbol representation of the quotient of the
    * digits brought down by the divisor and leaves their remainder; without
    * steps it writes nothing and never reads the divisor, which may then be 0. */
  method LongDivision(alphabet: string, base: nat, num1: string, divisor: nat, n: int)
    returns (quotient: string, remainder: nat)
    requires 2 <= base <= |alphabet| && IsDigits(alphabet, base, num1)
    requires divisor >= 1 || n <= 0
    ensures n <= 0 ==> quotient == [] && remainder == 0
    ensures n > 0 ==> quotient == Quotient(alphabet, base, num1, divisor, n)
    ensures n > 0 ==> remainder == ModBy(Leading(alphabet, base, num1, n), divisor)
  {
    quotient, remainder := "", 0;
    var i := 0;
    while i < n
      invariant 0 <= i && (i <= n || i == 0)
      invariant i == 0 ==> quotient == [] && remainder == 0
      invariant i > 0 ==> quotient == Quotient(alphabet, base, num1, divisor, i)
      invariant i > 0 ==> remainder == ModBy(Leading(alphabet, base, num1, i), divisor)
    {
      var digit1 := if i < |num1| then Digit(alphabet, num1[i]) else 0;
      DividendDigitBelow(alphabet, base, num1, i);
      QuotientStep(alphabet, base, num1, divisor, i, remainder, digit1);
      remainder := remainder * base + digit1;
      var digitResult := remainder / divisor;
      assert digitResult == DivBy(remainder, divisor);
      remainder := remainder % divisor;
      quotient := quotient + [ToNumber(alphabet, digitResult)];
      i := i + 1;
    }
  }

  /** The first i digits brought down, all inside the dividend, are its
    * first i symbols. */
  lemma {:induction false} LeadingPrefix(alphabet: string, base: nat, num: string, i: nat)
    requires i <= |num|
    ensures Leading(alphabet, base, num, i) == Val(alphabet, base, num[..i])
    decreases i
  {
    if i > 0 {
      LeadingPrefix(alphabet, base, num, i - 1);
      assert num[..i][..i - 1] == num[..i - 1];
    }
  }

  /** Bringing down k digits past the end of the dividend multiplies it by
    * base^k: the loop divides the dividend times base^k. */
  lemma {:induction false} LeadingValue(alphabet: string, base: nat, num: string, k: nat)
    ensures Leading(alphabet, base, num, |num| + k) == Val(alphabet, base, num) * Pow(base, k)
    decreases k
  {
    if k == 0 {
      LeadingPrefix(alphabet, base, num, |num|);
      assert num[..|num|] == num;
      assert Pow(base, 0) == 1;
      MulOne(Val(alphabet, base, num), Pow(base, 0));
    } else {
      LeadingValue(alphabet, base, num, k - 1);
      LeadingPastEnd(alphabet, base, num, |num| + k - 1);
      PowStep(base, k, k - 1);
      MulAssoc(Val(alphabet, base, num), Pow(base, k - 1), base);
    }
  }

  /** Past the end of the dividend, a step multiplies by the base. */
  lemma LeadingPastEnd(alphabet: string, base: nat, num: string, i: nat)
    requires i >= |num|
    ensures Leading(alphabet, base, num, i + 1) == Leading(alphabet, base, num, i) * base
  {
  }

  lemma MulAssoc(x: int, y: int, z: int)
    ensures (x * y) * z == x * (y * z)
  {
  }

  /** The digits brought down in i steps are worth less than base^i. */
  lemma {:induction false} LeadingBound(alphabet: string, base: nat, num: string, i: nat)
    requires base >= 1 && IsDigits(alphabet, base, num)
    ensures Leading(alphabet, base, num, i) < Pow(base, i)
    decreases i
  {
    if i > 0 {
      LeadingBound(alphabet, base, num, i - 1);
      DividendDigitBelow(alphabet, base, num, i - 1);
      var v, p := Leading(alphabet, base, num, i - 1), Pow(base, i - 1);
      NextDigitBound(v, p, base, DividendDigit(alphabet, num, i - 1));
    }
  }

  /** The n symbols Divide's loop writes: the digits brought down after n
    * steps divided by the divisor, written in n symbols. */
  function Quotient(alphabet: string, base: nat, num: string, divisor: nat, n: nat): string
    requires 2 <= base <= |alphabet| && divisor >= 1
  {
    Represent(alphabet, base, DivBy(Leading(alphabet, base, num, n), divisor), n)
  }

  /** What the loop writes reads back as the quotient: n digits worth the
    * digits brought down divided by the divisor. */
  lemma QuotientValue(alphabet: string, base: nat, num: string, divisor: nat, n: nat)
    requires 2 <= base && DistinctDigits(alphabet, base) && IsDigits(alphabet, base, num) && divisor >= 1
    ensures var q := Quotient(alphabet, base, num, divisor, n);
      IsDigits(alphabet, base, q) && Val(alphabet, base, q) == DivBy(Leading(alphabet, base, num, n), divisor)
  {
    var w := Leading(alphabet, base, num, n);
    assert DivBy(w, divisor) <= w by {
      DivModSplit(w, divisor);
      MulLeInt(1, divisor, DivBy(w, divisor));
    }
    LeadingBound(alphabet, base, num, n);
    RepresentDigits(alphabet, base, DivBy(w, divisor), n);
    ValRepresent(alphabet, base, DivBy(w, divisor), n);
  }

  // ---------------------------------------------------------------------
  // Divide as written

  /** The digit `Divide` divides by: toInteger of the first symbol of the
    * divisor's digits, which is the first symbol of its integer part. */
  function LeadDigit(c: Config, b: BigNumber): nat
    requires WellFormed(c, b.value)
  {
    Digit(c.alphabet, IntPart(c, b.value)[0])
  }

  /** The number of steps of Divide's loop: the dividend's padded digits
    * plus maxDecimal. */
  function DivideSteps(a: BigNumber, b: BigNumber): int
    requires MultiplyOperands(a, b)
  {
    |PaddedDigits(a.format, a.value, CommonPlaces(a.format, a, b))| + a.format.maxDecimal
  }

  /** What Divide does with the symbols the loop wrote: the separator put
    * back maxDecimal symbols from the right, the text split there and joined
    * again with the second piece padded with "0" to maxDecimal symbols; when
    * maxDecimal is not positive "0"s are trimmed at the end; then a bare
    * trailing separator is dropped. */
  function DivideCleanUp(digits: string, sep: char, maxDecimal: int): string
  {
    var placed := InsertDecimalPoint(digits, maxDecimal, sep);
    var joined := SplitDecimal(placed, sep).0 + [sep] + PadEndString(SplitDecimal(placed, sep).1, maxDecimal, '0');
    var cut := if maxDecimal <= 0 then TrimRight(joined, '0') else joined;
    if HasSuffix(cut, [sep]) then TrimSuffix(cut, [sep]) else cut
  }

  /** What `Divide` returns: a panic for the divisor text "0", the runtime's
    * panic when the loop runs and divides by a lead digit of 0, and
    * otherwise NewBigNumber of the cleaned-up quotient of the dividend's
    * padded digits (followed by maxDecimal "0"s) by the lead digit, with the
    * product of the signs. */
  function DivideResult(a: BigNumber, b: BigNumber): Outcome<BigNumber>
    requires MultiplyOperands(a, b)
  {
    var c := a.format;
    var num1 := PaddedDigits(c, a.value, CommonPlaces(c, a, b));
    var n := DivideSteps(a, b);
    var lead := LeadDigit(c, b);
    if b.value == "0" then Panic("division by zero")
    else if lead == 0 && n > 0 then Panic("integer divide by zero")
    else Done(NewBigNumber(QuotientCleanText(c, num1, lead)).(sign := a.sign * b.sign))
  }

  /** The text Divide's loop and clean-up make of the dividend's digits
    * `num1` and a divisor: the |num1| + maxDecimal quotient symbols of num1
    * followed by maxDecimal "0"s, cleaned up. */
  function QuotientCleanText(c: Config, num1: string, divisor: nat): string
    requires 2 <= c.base <= |c.alphabet|
    requires divisor >= 1 || |num1| + c.maxDecimal <= 0
  {
    var n := |num1| + c.maxDecimal;
    var digits := if n > 0 then Quotient(c.alphabet, c.base, num1, divisor, n) else [];
    DivideCleanUp(digits, c.decimalSeparator, c.maxDecimal)
  }

  /** `Divide` as written: the divisor text "0" panics; both operands are
    * written as digits on the same number of fraction places; the loop
    * divides by the value of the divisor's first symbol, which panics when
    * it is 0 and the loop runs; then the clean-up, NewBigNumber and the
    * product of the signs. */
  method Divide(a: BigNumber, b: BigNumber) returns (r: Outcome<BigNumber>)
    requires MultiplyOperands(a, b)
    ensures r == DivideResult(a, b)
  {
    if b.value == "0" {
      return Panic("division by zero");
    }
    var c := a.format;
    var sep := c.decimalSeparator;
    var num1, num2 := DivideOperandTexts(a, b);
    var n := |num1| + c.maxDecimal;
    var lead := Digit(c.alphabet, num2[0]);
    if lead == 0 && n > 0 {
      return Panic("integer divide by zero");
    }
    assert lead == LeadDigit(c, b) && n == DivideSteps(a, b);
    var result, remainder := LongDivision(c.alphabet, c.base, num1, lead, n);
    result := QuotientText(result, sep, c.maxDecimal);
    var q := NewBigNumber(result);
    r := Done(q.(sign := a.sign * b.sign));
  }

  /** The lines of `Divide` after the loop, up to NewBigNumber. */
  method QuotientText(digits: string, sep: char, maxDecimal: int) returns (result: string)
    ensures result == DivideCleanUp(digits, sep, maxDecimal)
  {
    result := InsertDecimalPoint(digits, maxDecimal, sep);
    var integerPart, decimalPart := SplitDecimal(result, sep).0, SplitDecimal(result, sep).1;
    result := integerPart + [sep] + PadEndString(decimalPart, maxDecimal, '0');
    if maxDecimal <= 0 {
      result := TrimRight(result, '0');
    }
    if HasSuffix(result, [sep]) {
      result := TrimSuffix(result, [sep]);
    }
  }

  /** The first lines of `Divide`: each operand's integer and fraction
    * symbols, the shorter fraction padded with "0"s: the padded digits of
    * both at the longer fraction's length. */
  method DivideOperandTexts(a: BigNumber, b: BigNumber) returns (num1: string, num2: string)
    requires MultiplyOperands(a, b)
    ensures var c, f := a.format, CommonPlaces(a.format, a, b);
      num1 == PaddedDigits(c, a.value, f) && num2 == PaddedDigits(c, b.value, f) &&
      num2[0] == IntPart(c, b.value)[0]
  {
    var c := a.format;
    var sep := c.decimalSeparator;
    var intPart1, decPart1 := SplitDecimal(a.value, sep).0, SplitDecimal(a.value, sep).1;
    var intPart2, decPart2 := SplitDecimal(b.value, sep).0, SplitDecimal(b.value, sep).1;
    var lenDec1, lenDec2 := |decPart1|, |decPart2|;
    num1 := intPart1 + decPart1;
    num2 := intPart2 + decPart2;
    var shift := lenDec2 - lenDec1;
    if shift > 0 {
      num1 := num1 + Repeat('0', shift);
      AppendAssoc(intPart1, decPart1, Repeat('0', shift));
      assert decPart2 + Repeat('0', 0) == decPart2;
    } else if shift < 0 {
      num2 := num2 + Repeat('0', -shift);
      AppendAssoc(intPart2, decPart2, Repeat('0', -shift));
      assert decPart1 + Repeat('0', 0) == decPart1;
    } else {
      assert decPart1 + Repeat('0', 0) == decPart1;
      assert decPart2 + Repeat('0', 0) == decPart2;
    }
  }

  // ---------------------------------------------------------------------
  // What Divide yields

  /** x followed by k "0" digits in the given base: x times base^k. */
  function Widened(x: nat, base: nat, k: nat): nat
  {
    x * Pow(base, k)
  }

  /** For maxDecimal from 0 to below the number of symbols, the clean-up
    * only puts the separator back. */
  lemma DivideCleanUpPlaced(c: Config, digits: string, maxDecimal: int)
    requires ValidConfig(c) && IsDigits(c.alphabet, c.base, digits) && 0 <= maxDecimal < |digits|
    ensures DivideCleanUp(digits, c.decimalSeparator, maxDecimal) == InsertDecimalPoint(digits, maxDecimal, c.decimalSeparator)
  {
    ZeroIsNoSeparator(c);
    SeparatorFree(c, digits);
    if maxDecimal == 0 {
      CleanUpNoPlaces(digits, c.decimalSeparator);
    } else {
      CleanUpPlaces(digits, c.decimalSeparator, maxDecimal);
    }
  }

  /** With no fraction places the separator appended by the clean-up is
    * trimmed again. */
  lemma CleanUpNoPlaces(digits: string, sep: char)
    requires sep !in digits && sep != '0'
    ensures DivideCleanUp(digits, sep, 0) == digits
  {
    SplitDecimalOf(digits, [], sep);
    var joined := digits + [sep] + PadEndString([], 0, '0');
    assert joined == digits + [sep];
    assert TrimRight(joined, '0') == joined;
    assert HasSuffix(joined, [sep]) && joined[..|joined| - 1] == digits;
  }

  /** With fraction places the fraction already has maxDecimal symbols, so
    * padding changes nothing and no separator ends the text. */
  lemma CleanUpPlaces(digits: string, sep: char, maxDecimal: int)
    requires sep !in digits && sep != '0' && 0 < maxDecimal < |digits|
    ensures DivideCleanUp(digits, sep, maxDecimal) == InsertDecimalPoint(digits, maxDecimal, sep)
  {
    InsertThenSplit(digits, maxDecimal, sep);
    var placed := InsertDecimalPoint(digits, maxDecimal, sep);
    var fp := SplitDecimal(placed, sep).1;
    assert PadEndString(fp, maxDecimal, '0') == fp;
    assert placed[|placed| - 1] == fp[|fp| - 1];
    assert !HasSuffix(placed, [sep]);
  }

  /** The quotient text of the loop read back: for a configuration with
    * maxDecimal >= 0 and a dividend of digits, the text NewBigNumber makes of
    * the cleaned-up quotient is well formed, has maxDecimal fraction
    * symbols, and scaled to them is worth the dividend times base^maxDecimal
    * divided by the divisor. */
  lemma QuotientTextValue(c: Config, num1: string, divisor: nat)
    requires DotConfig(c) && IsDigits(c.alphabet, c.base, num1) && |num1| >= 1
    requires divisor >= 1 && c.maxDecimal >= 0
    ensures WorthExactly(c, NewBigNumber(QuotientCleanText(c, num1, divisor)), c.maxDecimal,
      DivBy(Widened(Val(c.alphabet, c.base, num1), c.base, c.maxDecimal), divisor))
  {
    QuotientFacts(c, num1, divisor);
    QuotientNumber(c, num1, divisor);
  }

  /** The loop's |num1| + maxDecimal quotient symbols are digits worth the
    * dividend widened by maxDecimal places, divided by the divisor. */
  lemma QuotientFacts(c: Config, num1: string, divisor: nat)
    requires DotConfig(c) && IsDigits(c.alphabet, c.base, num1) && |num1| >= 1
    requires divisor >= 1 && c.maxDecimal >= 0
    ensures var q := Quotient(c.alphabet, c.base, num1, divisor, |num1| + c.maxDecimal);
      IsDigits(c.alphabet, c.base, q) &&
      Val(c.alphabet, c.base, q) == DivBy(Widened(Val(c.alphabet, c.base, num1), c.base, c.maxDecimal), divisor)
  {
    var n := |num1| + c.maxDecimal;
    QuotientDigits(c.alphabet, c.base, num1, divisor, n);
    QuotientOfWidened(c.alphabet, c.base, num1, divisor, c.maxDecimal);
  }

  /** The cleaned-up quotient text, read back, is worth the value of the
    * quotient symbols at maxDecimal fraction places. */
  lemma QuotientNumber(c: Config, num1: string, divisor: nat)
    requires DotConfig(c) && |num1| >= 1 && divisor >= 1 && c.maxDecimal >= 0
    requires IsDigits(c.alphabet, c.base, Quotient(c.alphabet, c.base, num1, divisor, |num1| + c.maxDecimal))
    ensures WorthExactly(c, NewBigNumber(QuotientCleanText(c, num1, divisor)), c.maxDecimal,
      Val(c.alphabet, c.base, Quotient(c.alphabet, c.base, num1, divisor, |num1| + c.maxDecimal)))
  {
    var q := Quotient(c.alphabet, c.base, num1, divisor, |num1| + c.maxDecimal);
    QuotientPlaced(c, num1, divisor, q);
    PlacedNumber(c, q, c.maxDecimal, QuotientCleanText(c, num1, divisor), Val(c.alphabet, c.base, q));
  }

  /** The quotient after |num1| + k steps is the value of num1 followed by k
    * "0"s divided by the divisor. */
  lemma QuotientOfWidened(alphabet: string, base: nat, num1: string, divisor: nat, k: nat)
    requires 2 <= base <= |alphabet| && DistinctDigits(alphabet, base) && IsDigits(alphabet, base, num1) && divisor >= 1
    ensures var q := Quotient(alphabet, base, num1, divisor, |num1| + k);
      Val(alphabet, base, q) == DivBy(Widened(Val(alphabet, base, num1), base, k), divisor)
  {
    LeadingValue(alphabet, base, num1, k);
    QuotientValue(alphabet, base, num1, divisor, |num1| + k);
    DivBySame(Leading(alphabet, base, num1, |num1| + k), Val(alphabet, base, num1), base, k, divisor);
  }

  lemma DivBySame(x: nat, v: nat, base: nat, k: nat, divisor: nat)
    requires divisor >= 1 && x == v * Pow(base, k)
    ensures DivBy(x, divisor) == DivBy(Widened(v, base, k), divisor)
  {
  }

  /** The quotient symbols are digits. */
  lemma QuotientDigits(alphabet: string, base: nat, num: string, divisor: nat, n: nat)
    requires 2 <= base && DistinctDigits(alphabet, base) && IsDigits(alphabet, base, num) && divisor >= 1
    ensures IsDigits(alphabet, base, Quotient(alphabet, base, num, divisor, n))
  {
    QuotientValue(alphabet, base, num, divisor, n);
  }

  /** Divide's clean-up only puts the separator back into the quotient
    * symbols `q` of its loop. */
  lemma QuotientPlaced(c: Config, num1: string, divisor: nat, q: string)
    requires ValidConfig(c) && |num1| >= 1
    requires divisor >= 1 && c.maxDecimal >= 0
    requires q == Quotient(c.alphabet, c.base, num1, divisor, |num1| + c.maxDecimal)
    requires IsDigits(c.alphabet, c.base, q)
    ensures QuotientCleanText(c, num1, divisor) == InsertDecimalPoint(q, c.maxDecimal, c.decimalSeparator)
  {
    QuotientCleanTextOf(c, num1, divisor, q);
    DivideCleanUpPlaced(c, q, c.maxDecimal);
  }

  /** With at least one loop step the clean-up works on the quotient. */
  lemma QuotientCleanTextOf(c: Config, num1: string, divisor: nat, q: string)
    requires 2 <= c.base <= |c.alphabet| && divisor >= 1 && |num1| + c.maxDecimal > 0
    requires q == Quotient(c.alphabet, c.base, num1, divisor, |num1| + c.maxDecimal)
    ensures QuotientCleanText(c, num1, divisor) == DivideCleanUp(q, c.decimalSeparator, c.maxDecimal)
  {
  }

  /** NewBigNumber of digits worth x with the separator k symbols from the
    * right: a well-formed, non-negative number with k fraction symbols whose
    * value scaled to them is x. */
  lemma PlacedNumber(c: Config, digits: string, k: nat, u: string, x: nat)
    requires DotConfig(c) && IsDigits(c.alphabet, c.base, digits) && k < |digits|
    requires u == InsertDecimalPoint(digits, k, c.decimalSeparator) && Val(c.alphabet, c.base, digits) == x
    ensures var r := NewBigNumber(u);
      r.sign == 1 && WellFormed(c, r.value) && |FracPart(c, r.value)| == k && Scaled(c, r.value, k) == x
  {
    PlacedText(c, digits, k);
    NewBigNumberOfText(c, u);
    ScaledNoPad(c, NewBigNumber(u).value, k);
  }

  /** `Divide` divides by the lead digit of the divisor: for well-formed
    * operands in one configuration with maxDecimal >= 0, a divisor text
    * other than "0" whose first symbol is not "0", the result has the
    * product of the signs, is well formed with maxDecimal fraction symbols,
    * and scaled to them is the dividend scaled to f, times base^maxDecimal,
    * divided by that one digit. */
  lemma DivideValueIn(a: BigNumber, b: BigNumber)
    requires SameDotConfig(a, b) && a.format.maxDecimal >= 0
    requires b.value != "0" && LeadDigit(a.format, b) != 0
    ensures MultiplyOperands(a, b) && DivideResult(a, b).Done?
    ensures var c, f, r := a.format, CommonPlaces(a.format, a, b), DivideResult(a, b).value;
      r.sign == a.sign * b.sign && WellFormed(c, r.value) && |FracPart(c, r.value)| == c.maxDecimal &&
      Scaled(c, r.value, c.maxDecimal) == DivBy(Widened(Scaled(c, a.value, f), c.base, c.maxDecimal), LeadDigit(c, b))
  {
    var c, f := a.format, CommonPlaces(a.format, a, b);
    PaddedDigitsValue(c, a.value, f);
    QuotientTextValue(c, PaddedDigits(c, a.value, f), LeadDigit(c, b));
  }

  // ---------------------------------------------------------------------
  // Divide, corrected

  /** Divide as evidently intended: the dividend's digits are divided by the
    * whole divisor scaled to the common fraction places, not by its first
    * symbol, and only a divisor worth 0 panics. */
  function DivideFixed(a: BigNumber, b: BigNumber): Outcome<BigNumber>
    requires MultiplyOperands(a, b)
  {
    var c := a.format;
    var f := CommonPlaces(c, a, b);
    var divisor := Scaled(c, b.value, f);
    if divisor == 0 then Panic("division by zero")
    else Done(NewBigNumber(QuotientCleanText(c, PaddedDigits(c, a.value, f), divisor)).(sign := a.sign * b.sign))
  }

  /** The corrected Divide panics exactly for a divisor worth 0; otherwise,
    * with maxDecimal >= 0, the result has the product of the signs, is well
    * formed with maxDecimal fraction symbols, and scaled to them is the
    * quotient of the operands scaled to f, truncated to maxDecimal places:
    * (a * base^f) * base^maxDecimal divided by b * base^f. */
  lemma DivideFixedValue(a: BigNumber, b: BigNumber)
    requires SameDotConfig(a, b) && a.format.maxDecimal >= 0
    ensures MultiplyOperands(a, b)
    ensures DivideFixed(a, b).Panic? <==> Scaled(a.format, b.value, CommonPlaces(a.format, a, b)) == 0
    ensures var c, f := a.format, CommonPlaces(a.format, a, b);
      Scaled(c, b.value, f) != 0 ==>
        var r := DivideFixed(a, b).value;
        r.sign == a.sign * b.sign && WellFormed(c, r.value) && |FracPart(c, r.value)| == c.maxDecimal &&
        Scaled(c, r.value, c.maxDecimal) == DivBy(Widened(Scaled(c, a.value, f), c.base, c.maxDecimal), Scaled(c, b.value, f))
  {
    var c, f := a.format, CommonPlaces(a.format, a, b);
    PaddedDigitsValue(c, a.value, f);
    if Scaled(c, b.value, f) != 0 {
      QuotientTextValue(c, PaddedDigits(c, a.value, f), Scaled(c, b.value, f));
    }
  }

  // ---------------------------------------------------------------------
  // Findings

  /** 1 widened by k places and divided by 1 is base^k. */
  lemma OneOverOne(x: nat, d: nat, base: nat, k: nat)
    requires x == 1 && d == 1
    ensures DivBy(Widened(x, base, k), d) == Pow(base, k)
  {
  }

  /** 1 widened by k places and divided by base is base^(k - 1). */
  lemma OneOverBase(x: nat, d: nat, base: nat, k: nat)
    requires x == 1 && d == base >= 1 && k >= 1
    ensures DivBy(Widened(x, base, k), d) == Pow(base, k - 1)
  {
    PowStep(base, k, k - 1);
    DivModUnique(Pow(base, k), base, Pow(base, k - 1), 0);
  }

  /** "1" and "10" as operands: no fraction places, worth 1 and base, and
    * the divisor's first symbol is worth 1. */
  lemma OneTenOperands(c: Config)
    requires DotConfig(c) && Starts012(c)
    ensures var a, b := BigNumber("1", c, 1), BigNumber("10", c, 1);
      SameDotConfig(a, b) && CommonPlaces(c, a, b) == 0 &&
      Scaled(c, "1", 0) == 1 && Scaled(c, "10", 0) == c.base && LeadDigit(c, b) == 1 && b.value != "0"
  {
    TenDigits(c);
    OneDigit(c);
    PlainDigitsText(c, "1");
    PlainDigitsText(c, "10");
    WellFormedOf(c, "10", []);
  }

  /** "1" is a digit text worth one. */
  lemma OneDigit(c: Config)
    requires Starts012(c)
    ensures IsDigits(c.alphabet, c.base, "1") && Val(c.alphabet, c.base, "1") == 1
  {
    SmallDigits(c);
    assert c.alphabet[..c.base][1] == '1';
    assert "1"[..0] == [];
  }

  /** "1" divided by "10" is 1 as written, since only the first symbol of
    * the divisor is used (scaled by base^maxDecimal). */
  lemma DivideOneByTen(c: Config)
    requires DotConfig(c) && Starts012(c) && c.maxDecimal >= 1
    ensures var a, b := BigNumber("1", c, 1), BigNumber("10", c, 1);
      SameDotConfig(a, b) && DivideResult(a, b).Done? &&
      |FracPart(c, DivideResult(a, b).value.value)| == c.maxDecimal &&
      Scaled(c, DivideResult(a, b).value.value, c.maxDecimal) == Pow(c.base, c.maxDecimal)
  {
    var a, b := BigNumber("1", c, 1), BigNumber("10", c, 1);
    OneTenOperands(c);
    OneByTenWritten(a, b);
  }

  /** "0.1" is well formed, with integer part "0" and one fraction symbol,
    * and worth 1 at one place. */
  lemma PointOneText(c: Config)
    requires DotConfig(c) && Starts012(c)
    ensures WellFormed(c, "0.1") && IntPart(c, "0.1") == "0" && |FracPart(c, "0.1")| == 1 && Scaled(c, "0.1", 1) == 1
  {
    TenDigits(c);
    SmallDigits(c);
    assert "1" == "10"[..1] && "0" == "10"[1..];
    WellFormedOf(c, "0", "1");
    assert "0" + [c.decimalSeparator] + "1" == "0.1";
    assert DigitsOf(c, "0.1") == "01" && "01"[..1] == "0";
    ScaledNoPad(c, "0.1", 1);
  }

  /** "1" and "0.1" as operands: one fraction place, the divisor worth 1
    * at that place, its first symbol "0", and a loop that runs. */
  lemma OnePointOneOperands(c: Config)
    requires DotConfig(c) && Starts012(c) && c.maxDecimal >= 0
    ensures var a, b := BigNumber("1", c, 1), BigNumber("0.1", c, 1);
      SameDotConfig(a, b) && CommonPlaces(c, a, b) == 1 && b.value != "0" &&
      LeadDigit(c, b) == 0 && DivideSteps(a, b) > 0 && Scaled(c, b.value, 1) == 1
  {
    var a, b := BigNumber("1", c, 1), BigNumber("0.1", c, 1);
    PointOneText(c);
    TenDigits(c);
    assert "1" == "10"[..1];
    WellFormedOf(c, "1", []);
    assert Digit(c.alphabet, '0') == 0 by {
      DigitOfSymbol(c.alphabet, c.base, 0);
    }
    assert b.value != "0" by {
      assert |b.value| == 3;
    }
    PaddedDigitsValue(c, a.value, 1);
  }

  /** "1" divided by "0.1" panics as written, since the divisor's first
    * symbol is "0", while the corrected Divide, which divides by the whole
    * divisor, returns a number. */
  lemma DivideByPointOne(c: Config)
    requires DotConfig(c) && Starts012(c) && c.maxDecimal >= 0
    ensures var a, b := BigNumber("1", c, 1), BigNumber("0.1", c, 1);
      SameDotConfig(a, b) && DivideResult(a, b) == Panic("integer divide by zero") && DivideFixed(a, b).Done?
  {
    OnePointOneOperands(c);
  }

  /** As written, a dividend worth 1 over a divisor whose first symbol is
    * worth 1 gives base^maxDecimal scaled: 1. */
  lemma OneByTenWritten(a: BigNumber, b: BigNumber)
    requires SameDotConfig(a, b) && a.format.maxDecimal >= 1 && b.value != "0"
    requires Scaled(a.format, a.value, CommonPlaces(a.format, a, b)) == 1 && LeadDigit(a.format, b) == 1
    ensures DivideResult(a, b).Done? && |FracPart(a.format, DivideResult(a, b).value.value)| == a.format.maxDecimal &&
      Scaled(a.format, DivideResult(a, b).value.value, a.format.maxDecimal) == Pow(a.format.base, a.format.maxDecimal)
  {
    var c := a.format;
    DivideValueIn(a, b);
    OneOverOne(Scaled(c, a.value, CommonPlaces(c, a, b)), LeadDigit(c, b), c.base, c.maxDecimal);
  }

  /** Corrected, a dividend worth 1 over a divisor worth base gives
    * base^(maxDecimal - 1) scaled: 1/base. */
  lemma OneByTenFixed(a: BigNumber, b: BigNumber)
    requires SameDotConfig(a, b) && a.format.maxDecimal >= 1
    requires Scaled(a.format, a.value, CommonPlaces(a.format, a, b)) == 1
    requires Scaled(a.format, b.value, CommonPlaces(a.format, a, b)) == a.format.base
    ensures DivideFixed(a, b).Done? && |FracPart(a.format, DivideFixed(a, b).value.value)| == a.format.maxDecimal &&
      Scaled(a.format, DivideFixed(a, b).value.value, a.format.maxDecimal) == Pow(a.format.base, a.format.maxDecimal - 1)
  {
    var c := a.format;
    DivideFixedValue(a, b);
    OneOverBase(Scaled(c, a.value, CommonPlaces(c, a, b)), Scaled(c, b.value, CommonPlaces(c, a, b)), c.base, c.maxDecimal);
  }
}
