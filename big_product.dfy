/** What `Multiply` of bigNumber.go computes, read back as a number: for two
  * well-formed operands in one configuration the result carries the
  * product of their values, the separator 2 * f symbols from the right (f
  * the longer fraction), padded to maxDecimal places; where the clean-up
  * goes wrong, and the corrected form. */
module BigProduct {
  import opened GoStrings
  import opened BigDigits
  import opened BigNumbers
  import opened BigAddSub
  import opened BigValues
  import opened BigMultiply
  import opened BigCompare
  import opened BigSigned

  /** The fraction places the clean-up leaves: the product's m places,
    * padded up to maxDecimal when there are any. */
  function ProductPlaces(m: nat, maxDecimal: int): nat
  {
    if m > 0 && maxDecimal > m then maxDecimal else m
  }

  /** The integer part the clean-up leaves: "0"s dropped in front, "0" when
    * nothing is left. */
  function LeadDigits(ip: string): string
  {
    var t := TrimLeft(ip, '0');
    if t == [] then "0" else t
  }

  // ---------------------------------------------------------------------
  // The steps of the clean-up

  /** Dropping "0"s in front of ip.fp drops them from ip only, and a bare
    * separator left in front gets its "0" back. */
  lemma TrimLeadingOf(ip: string, fp: string, sep: char)
    requires sep != '0' && sep !in ip
    ensures TrimLeading(ip + [sep] + fp, sep) == LeadDigits(ip) + [sep] + fp
  {
    TrimLeftJoined(ip, fp, sep);
    if TrimLeft(ip, '0') != [] {
      LeadKept(ip, fp, sep);
    } else {
      LeadZero(ip, fp, sep);
    }
  }

  lemma TrimLeftJoined(ip: string, fp: string, sep: char)
    requires sep != '0'
    ensures TrimLeft(ip + [sep] + fp, '0') ==
      if TrimLeft(ip, '0') == [] then [sep] + fp else TrimLeft(ip, '0') + ([sep] + fp)
  {
    assert ip + [sep] + fp == ip + ([sep] + fp);
    TrimLeftConcat(ip, [sep] + fp, '0');
    assert TrimLeft([sep] + fp, '0') == [sep] + fp;
  }

  lemma LeadKept(ip: string, fp: string, sep: char)
    requires sep !in ip && TrimLeft(ip, '0') != []
    requires TrimLeft(ip + [sep] + fp, '0') == TrimLeft(ip, '0') + ([sep] + fp)
    ensures TrimLeading(ip + [sep] + fp, sep) == TrimLeft(ip, '0') + [sep] + fp
  {
    var t := TrimLeft(ip, '0');
    TrimLeftSuffix(ip, '0');
    assert t[0] == ip[|ip| - |t|];
    assert (t + ([sep] + fp))[0] == t[0];
    assert t + ([sep] + fp) == t + [sep] + fp;
  }

  lemma LeadZero(ip: string, fp: string, sep: char)
    requires TrimLeft(ip + [sep] + fp, '0') == [sep] + fp
    ensures TrimLeading(ip + [sep] + fp, sep) == "0" + [sep] + fp
  {
    assert HasPrefix([sep] + fp, [sep]);
    assert "0" + ([sep] + fp) == "0" + [sep] + fp;
  }

  /** The integer part the clean-up leaves is digits, and with the fraction
    * it is worth what ip.fp is worth. */
  lemma LeadDigitsValue(c: Config, ip: string, fp: string)
    requires ValidConfig(c) && IsDigits(c.alphabet, c.base, ip + fp)
    ensures var ip' := LeadDigits(ip);
      |ip'| >= 1 && IsDigits(c.alphabet, c.base, ip') && IsDigits(c.alphabet, c.base, fp) &&
      c.decimalSeparator !in ip' &&
      Val(c.alphabet, c.base, ip' + fp) == Val(c.alphabet, c.base, ip + fp)
  {
    var t := TrimLeft(ip, '0');
    SplitDigits(c, ip, fp);
    TrimmedZerosValue(c, ip, fp);
    if t == [] {
      ZeroDigitText(c);
      TrimmedZerosValue(c, "0", fp);
      assert TrimLeft("0", '0') == [];
      assert [] + fp == fp;
    }
    SeparatorFree(c, LeadDigits(ip));
  }

  /** Splitting ip.fp at its one separator, padding the second piece and
    * joining again pads the fraction. */
  lemma PadSecondPieceOf(ip: string, fp: string, sep: char, maxDecimal: int)
    requires sep !in ip && sep !in fp
    ensures PadSecondPiece(ip + [sep] + fp, sep, maxDecimal) == ip + [sep] + PadEndString(fp, maxDecimal, '0')
  {
    var s := ip + [sep] + fp;
    forall p | 0 <= p < |s| && p != |ip| ensures s[p] != sep {
      if p < |ip| {
        assert s[p] == ip[p];
      } else {
        assert s[p] == fp[p - |ip| - 1];
      }
    }
    SplitCharOnce(s, sep, |ip|);
    assert s[..|ip|] == ip && s[|ip| + 1..] == fp;
    assert Split(s, [sep]) == [ip, fp];
    var fp' := PadEndString(fp, maxDecimal, '0');
    var parts' := if |fp| < maxDecimal then [ip, fp][1 := fp'] else [ip, fp];
    assert parts' == [ip, fp'];
    assert [ip, fp'][1..] == [fp'];
    assert Join([ip, fp'], [sep]) == ip + [sep] + fp';
  }

  /** The separator put back m > 0 symbols from the right and the "0"s in
    * front dropped: an integer part of at least one digit, the separator,
    * and m fraction digits, worth the digits. */
  lemma PointedLead(c: Config, digits: string, m: nat)
    requires ValidConfig(c) && IsDigits(c.alphabet, c.base, digits) && m > 0
    ensures var sep := c.decimalSeparator;
      var (ip, fp) := SplitDecimal(InsertDecimalPoint(digits, m, sep), sep);
      var ip' := LeadDigits(ip);
      TrimLeading(InsertDecimalPoint(digits, m, sep), sep) == ip' + [sep] + fp &&
      |fp| == m && |ip'| >= 1 && IsDigits(c.alphabet, c.base, ip') && IsDigits(c.alphabet, c.base, fp) &&
      sep !in ip' && sep !in fp &&
      Val(c.alphabet, c.base, ip' + fp) == Val(c.alphabet, c.base, digits)
  {
    var sep := c.decimalSeparator;
    SeparatorFree(c, digits);
    ZeroIsNoSeparator(c);
    InsertThenSplit(digits, m, sep);
    var (ip, fp) := SplitDecimal(InsertDecimalPoint(digits, m, sep), sep);
    var z := Repeat('0', PointPadding(|digits|, m));
    assert IsDigits(c.alphabet, c.base, ip + fp) &&
      Val(c.alphabet, c.base, ip + fp) == Val(c.alphabet, c.base, digits) by {
      ZerosAreDigits(c, |z|);
      ConcatDigits(c.alphabet, c.base, z, digits);
      ValLeadingZeros(c.alphabet, c.base, z, digits);
    }
    TrimLeadingOf(ip, fp, sep);
    LeadDigitsValue(c, ip, fp);
  }

  // ---------------------------------------------------------------------
  // The clean-up keeps the value

  /** Multiply's clean-up keeps the value of the product digits, unless it
    * trims "0"s at the end of a text without separator: the text is well
    * formed; it has at most P fraction symbols, exactly P when there are
    * places and maxDecimal is positive (P the places padded to maxDecimal);
    * and scaled to P it is worth the digits times base^(P - m). */
  lemma MultiplyCleanUpValue(c: Config, digits: string, m: nat, trimPlain: bool)
    requires ValidConfig(c) && IsDigits(c.alphabet, c.base, digits)
    requires m > 0 || !trimPlain || c.maxDecimal > 0
    ensures var u := MultiplyCleanUp(digits, m, c.decimalSeparator, c.maxDecimal, trimPlain);
      var p := ProductPlaces(m, c.maxDecimal);
      WellFormed(c, u) && |FracPart(c, u)| <= p && (m > 0 && c.maxDecimal > 0 ==> |FracPart(c, u)| == p) &&
      Scaled(c, u, p) == Val(c.alphabet, c.base, digits) * Pow(c.base, p - m)
  {
    if m == 0 {
      CleanUpInteger(c, digits, m, trimPlain);
    } else if c.maxDecimal <= 0 {
      CleanUpPointTrim(c, digits, m, trimPlain);
    } else {
      CleanUpPointPad(c, digits, m, trimPlain);
    }
  }

  lemma CleanUpInteger(c: Config, digits: string, m: nat, trimPlain: bool)
    requires ValidConfig(c) && IsDigits(c.alphabet, c.base, digits)
    requires m == 0 && (!trimPlain || c.maxDecimal > 0)
    ensures var u := MultiplyCleanUp(digits, m, c.decimalSeparator, c.maxDecimal, trimPlain);
      var p := ProductPlaces(m, c.maxDecimal);
      WellFormed(c, u) && |FracPart(c, u)| <= p && (m > 0 && c.maxDecimal > 0 ==> |FracPart(c, u)| == p) &&
      Scaled(c, u, p) == Val(c.alphabet, c.base, digits) * Pow(c.base, p - m)
  {
    var t := TrimLeft(digits, '0');
    TrimmedDigits(c, digits);
    SeparatorFree(c, t);
    IntegerCleanUpText(digits, c.decimalSeparator, c.maxDecimal, trimPlain);
    PlainText(c, t);
    assert Pow(c.base, 0) == 1;
  }

  /** Without fraction places the clean-up only drops leading "0"s, and an
    * empty text becomes "0". */
  lemma IntegerCleanUpText(digits: string, sep: char, maxDecimal: int, trimPlain: bool)
    requires sep !in TrimLeft(digits, '0') && (!trimPlain || maxDecimal > 0)
    ensures var t := TrimLeft(digits, '0');
      MultiplyCleanUp(digits, 0, sep, maxDecimal, trimPlain) == if t == "" then "0" else t
  {
    var t := TrimLeft(digits, '0');
    assert TrimLeading(digits, sep) == t by {
      if t != [] {
        assert t[0] != sep;
      }
    }
    assert PadProduct(t, sep, maxDecimal) == t;
    if t != [] {
      assert t[|t| - 1] != sep;
    }
  }

  lemma CleanUpPointTrim(c: Config, digits: string, m: nat, trimPlain: bool)
    requires ValidConfig(c) && IsDigits(c.alphabet, c.base, digits)
    requires m > 0 && c.maxDecimal <= 0
    ensures var u := MultiplyCleanUp(digits, m, c.decimalSeparator, c.maxDecimal, trimPlain);
      var p := ProductPlaces(m, c.maxDecimal);
      WellFormed(c, u) && |FracPart(c, u)| <= p && (m > 0 && c.maxDecimal > 0 ==> |FracPart(c, u)| == p) &&
      Scaled(c, u, p) == Val(c.alphabet, c.base, digits) * Pow(c.base, p - m)
  {
    var sep := c.decimalSeparator;
    PointedLead(c, digits, m);
    var (ip, fp) := SplitDecimal(InsertDecimalPoint(digits, m, sep), sep);
    var ip' := LeadDigits(ip);
    ZeroIsNoSeparator(c);
    PointTrimText(digits, m, sep, c.maxDecimal, trimPlain, ip', fp);
    TrimFractionValue(c, ip', fp);
    assert ProductPlaces(m, c.maxDecimal) == m;
    assert Pow(c.base, 0) == 1;
    MulOne(Val(c.alphabet, c.base, digits), Pow(c.base, 0));
  }

  /** With maxDecimal not positive, the clean-up of a pointed text is
    * TrimFraction. */
  lemma PointTrimText(digits: string, m: nat, sep: char, maxDecimal: int, trimPlain: bool, ip: string, fp: string)
    requires m > 0 && maxDecimal <= 0 && sep != '0' && |ip| >= 1 && sep !in ip && sep !in fp
    requires TrimLeading(InsertDecimalPoint(digits, m, sep), sep) == ip + [sep] + fp
    ensures MultiplyCleanUp(digits, m, sep, maxDecimal, trimPlain) == TrimFraction(ip + [sep] + fp, sep)
  {
    var led := ip + [sep] + fp;
    assert PadProduct(led, sep, maxDecimal) == led by {
      assert led[|ip|] == sep;
      PadSecondPieceOf(ip, fp, sep, maxDecimal);
      assert PadEndString(fp, maxDecimal, '0') == fp;
    }
    assert EndProduct(led, sep, maxDecimal, trimPlain) == TrimFraction(led, sep) by {
      assert led[|ip|] == sep;
      TrimFractionOf(ip, fp, sep);
    }
  }

  lemma CleanUpPointPad(c: Config, digits: string, m: nat, trimPlain: bool)
    requires ValidConfig(c) && IsDigits(c.alphabet, c.base, digits)
    requires m > 0 && c.maxDecimal > 0
    ensures var u := MultiplyCleanUp(digits, m, c.decimalSeparator, c.maxDecimal, trimPlain);
      var p := ProductPlaces(m, c.maxDecimal);
      WellFormed(c, u) && |FracPart(c, u)| <= p && (m > 0 && c.maxDecimal > 0 ==> |FracPart(c, u)| == p) &&
      Scaled(c, u, p) == Val(c.alphabet, c.base, digits) * Pow(c.base, p - m)
  {
    var sep := c.decimalSeparator;
    var p := ProductPlaces(m, c.maxDecimal);
    PointedLead(c, digits, m);
    var (ip, fp) := SplitDecimal(InsertDecimalPoint(digits, m, sep), sep);
    var ip' := LeadDigits(ip);
    ZeroIsNoSeparator(c);
    PointPadText(digits, m, sep, c.maxDecimal, trimPlain, ip', fp, p);
    PaddedTextValue(c, ip', fp, p - m, p, Val(c.alphabet, c.base, digits));
  }

  /** ip.fp with n "0"s after the fraction is well formed, has |fp| + n
    * fraction symbols, and is worth the digits times base^n. */
  lemma PaddedTextValue(c: Config, ip: string, fp: string, n: nat, p: nat, x: nat)
    requires ValidConfig(c) && |ip| >= 1 && IsDigits(c.alphabet, c.base, ip) && IsDigits(c.alphabet, c.base, fp)
    requires |fp| >= 1 && Val(c.alphabet, c.base, ip + fp) == x && p == |fp| + n
    ensures var u := ip + [c.decimalSeparator] + (fp + Repeat('0', n));
      WellFormed(c, u) && |FracPart(c, u)| == p && Scaled(c, u, p) == x * Pow(c.base, n)
  {
    var fp' := fp + Repeat('0', n);
    var u := ip + [c.decimalSeparator] + fp';
    PaddedFractionValue(c, ip, fp, n);
    assert fp' != [];
    assert WellFormed(c, u) && FracPart(c, u) == fp' && DigitsOf(c, u) == ip + fp' by {
      TrimmedText(c, ip, fp');
    }
    ScaledNoPad(c, u, p);
  }

  /** "0"s after the fraction are digits, and multiply the value by a power
    * of the base. */
  lemma PaddedFractionValue(c: Config, ip: string, fp: string, n: nat)
    requires ValidConfig(c) && IsDigits(c.alphabet, c.base, fp)
    ensures var fp' := fp + Repeat('0', n);
      IsDigits(c.alphabet, c.base, fp') && |fp'| == |fp| + n &&
      Val(c.alphabet, c.base, ip + fp') == Val(c.alphabet, c.base, ip + fp) * Pow(c.base, n)
  {
    var z := Repeat('0', n);
    ZerosAreDigits(c, n);
    ConcatDigits(c.alphabet, c.base, fp, z);
    AppendAssoc(ip, fp, z);
    ValTrailingZeros(c.alphabet, c.base, ip + fp, z);
  }

  /** With maxDecimal positive, the clean-up of a pointed text pads its
    * fraction with "0"s to p = max(m, maxDecimal) symbols and keeps it. */
  lemma PointPadText(digits: string, m: nat, sep: char, maxDecimal: int, trimPlain: bool, ip: string, fp: string, p: nat)
    requires m > 0 && maxDecimal > 0 && p == ProductPlaces(m, maxDecimal) && sep != '0'
    requires |fp| == m && sep !in ip && sep !in fp
    requires TrimLeading(InsertDecimalPoint(digits, m, sep), sep) == ip + [sep] + fp
    ensures MultiplyCleanUp(digits, m, sep, maxDecimal, trimPlain) == ip + [sep] + (fp + Repeat('0', p - m))
  {
    var led := ip + [sep] + fp;
    var fp' := fp + Repeat('0', p - m);
    assert PadProduct(led, sep, maxDecimal) == ip + [sep] + fp' by {
      assert led[|ip|] == sep;
      PadSecondPieceOf(ip, fp, sep, maxDecimal);
      assert PadEndString(fp, maxDecimal, '0') == fp';
    }
    EndKept(ip, fp', sep, maxDecimal, trimPlain);
  }

  /** A text ending in a fraction symbol other than the separator is kept
    * when maxDecimal is positive. */
  lemma EndKept(ip: string, fp: string, sep: char, maxDecimal: int, trimPlain: bool)
    requires maxDecimal > 0 && fp != [] && sep !in fp
    ensures EndProduct(ip + [sep] + fp, sep, maxDecimal, trimPlain) == ip + [sep] + fp
  {
    var u := ip + [sep] + fp;
    assert u[|u| - 1] == fp[|fp| - 1];
  }

  // ---------------------------------------------------------------------
  // Multiply yields the product

  /** The grade-school product written on |d1| + |d2| symbols is digits
    * worth the product of the two values. */
  lemma ProductDigitsValue(c: Config, d1: string, d2: string)
    requires ValidConfig(c) && IsDigits(c.alphabet, c.base, d1) && IsDigits(c.alphabet, c.base, d2)
    ensures var d := ProductDigitsOf(c.alphabet, c.base, d1, d2);
      IsDigits(c.alphabet, c.base, d) &&
      Val(c.alphabet, c.base, d) == Val(c.alphabet, c.base, d1) * Val(c.alphabet, c.base, d2)
  {
    var x, y := Val(c.alphabet, c.base, d1), Val(c.alphabet, c.base, d2);
    var n := |d1| + |d2|;
    assert x * y < Pow(c.base, n) by {
      ProductBound(c.alphabet, c.base, d1, d2);
    }
    RepresentDigits(c.alphabet, c.base, x * y, n);
    ValRepresent(c.alphabet, c.base, x * y, n);
  }

  /** The text Multiply builds is the product: for well-formed operands in
    * one configuration, unless "0"s are trimmed at the end of an integer
    * result, the text is well formed, has at most p fraction symbols
    * (exactly p when there are places and maxDecimal is positive), and
    * scaled to p it is worth the product of the operands scaled to f, times
    * base^(p - 2f). */
  lemma ProductTextValue(a: BigNumber, b: BigNumber, trimPlain: bool)
    requires SameDotConfig(a, b)
    requires CommonPlaces(a.format, a, b) > 0 || !trimPlain || a.format.maxDecimal > 0
    ensures MultiplyOperands(a, b)
    ensures var c, f := a.format, CommonPlaces(a.format, a, b);
      var u, p := ProductText(a, b, trimPlain), ProductPlaces(2 * f, c.maxDecimal);
      WellFormed(c, u) && |FracPart(c, u)| <= p && (f > 0 && c.maxDecimal > 0 ==> |FracPart(c, u)| == p) &&
      Scaled(c, u, p) == Scaled(c, a.value, f) * Scaled(c, b.value, f) * Pow(c.base, p - 2 * f)
  {
    var c, f := a.format, CommonPlaces(a.format, a, b);
    var d1, d2 := PaddedDigits(c, a.value, f), PaddedDigits(c, b.value, f);
    var x1, x2 := Scaled(c, a.value, f), Scaled(c, b.value, f);
    assert IsDigits(c.alphabet, c.base, d1) && Val(c.alphabet, c.base, d1) == x1 by {
      PaddedDigitsValue(c, a.value, f);
    }
    assert IsDigits(c.alphabet, c.base, d2) && Val(c.alphabet, c.base, d2) == x2 by {
      PaddedDigitsValue(c, b.value, f);
    }
    var digits := ProductDigitsOf(c.alphabet, c.base, d1, d2);
    assert IsDigits(c.alphabet, c.base, digits) && Val(c.alphabet, c.base, digits) == x1 * x2 by {
      ProductDigitsValue(c, d1, d2);
    }
    assert ProductText(a, b, trimPlain) == MultiplyCleanUp(digits, 2 * f, c.decimalSeparator, c.maxDecimal, trimPlain);
    CleanUpOf(c, digits, 2 * f, trimPlain, x1 * x2);
  }

  /** MultiplyCleanUpValue for digits known to be worth x. */
  lemma CleanUpOf(c: Config, digits: string, m: nat, trimPlain: bool, x: nat)
    requires ValidConfig(c) && IsDigits(c.alphabet, c.base, digits) && Val(c.alphabet, c.base, digits) == x
    requires m > 0 || !trimPlain || c.maxDecimal > 0
    ensures var u, p := MultiplyCleanUp(digits, m, c.decimalSeparator, c.maxDecimal, trimPlain), ProductPlaces(m, c.maxDecimal);
      WellFormed(c, u) && |FracPart(c, u)| <= p && (m > 0 && c.maxDecimal > 0 ==> |FracPart(c, u)| == p) &&
      Scaled(c, u, p) == x * Pow(c.base, p - m)
  {
    MultiplyCleanUpValue(c, digits, m, trimPlain);
  }

  /** `Multiply` yields the product: for well-formed operands in one
    * configuration with fraction places or a positive maxDecimal, the
    * result has the product of the signs, is well formed, has at most p
    * fraction symbols (exactly p = max(2f, maxDecimal) when f > 0 and
    * maxDecimal > 0), and scaled to p it is worth the product of the
    * operands scaled to f, times base^(p - 2f). */
  lemma MultiplyValueIn(a: BigNumber, b: BigNumber)
    requires SameDotConfig(a, b)
    requires CommonPlaces(a.format, a, b) > 0 || a.format.maxDecimal > 0
    ensures MultiplyOperands(a, b)
    ensures var c, f, r := a.format, CommonPlaces(a.format, a, b), MultiplyResult(a, b);
      var p := ProductPlaces(2 * f, c.maxDecimal);
      r.sign == a.sign * b.sign && WellFormed(c, r.value) && |FracPart(c, r.value)| <= p &&
      (f > 0 && c.maxDecimal > 0 ==> |FracPart(c, r.value)| == p) &&
      Scaled(c, r.value, p) == Scaled(c, a.value, f) * Scaled(c, b.value, f) * Pow(c.base, p - 2 * f)
  {
    var c, f := a.format, CommonPlaces(a.format, a, b);
    var p := ProductPlaces(2 * f, c.maxDecimal);
    ProductTextValue(a, b, true);
    var u := ProductText(a, b, true);
    NewBigNumberOfText(c, u);
    ScaledSame(c, MultiplyResult(a, b).value, u, p);
  }

  // ---------------------------------------------------------------------
  // Multiply, corrected

  /** Multiply as evidently intended: "0"s at the end are trimmed only from
    * a fraction, never from an integer result. */
  function MultiplyFixed(a: BigNumber, b: BigNumber): BigNumber
    requires MultiplyOperands(a, b)
  {
    NewBigNumber(ProductText(a, b, false)).(sign := a.sign * b.sign)
  }

  /** The corrected Multiply yields the product for all well-formed operands
    * in one configuration, integers included. */
  lemma MultiplyFixedValue(a: BigNumber, b: BigNumber)
    requires SameDotConfig(a, b)
    ensures MultiplyOperands(a, b)
    ensures var c, f, r := a.format, CommonPlaces(a.format, a, b), MultiplyFixed(a, b);
      var p := ProductPlaces(2 * f, c.maxDecimal);
      r.sign == a.sign * b.sign && WellFormed(c, r.value) && |FracPart(c, r.value)| <= p &&
      (f > 0 && c.maxDecimal > 0 ==> |FracPart(c, r.value)| == p) &&
      Scaled(c, r.value, p) == Scaled(c, a.value, f) * Scaled(c, b.value, f) * Pow(c.base, p - 2 * f)
  {
    var c, f := a.format, CommonPlaces(a.format, a, b);
    var p := ProductPlaces(2 * f, c.maxDecimal);
    ProductTextValue(a, b, false);
    var u := ProductText(a, b, false);
    NewBigNumberOfText(c, u);
    ScaledSame(c, MultiplyFixed(a, b).value, u, p);
  }

  /** With signs as NewBigNumber sets them, the corrected Multiply yields
    * the signed product. */
  lemma MultiplyFixedSigned(a: BigNumber, b: BigNumber)
    requires SameDotConfig(a, b) && Signed(a) && Signed(b)
    ensures MultiplyOperands(a, b)
    ensures var c, f, r := a.format, CommonPlaces(a.format, a, b), MultiplyFixed(a, b);
      var p := ProductPlaces(2 * f, c.maxDecimal);
      Signed(r) && |FracPart(c, r.value)| <= p &&
      SignedScaled(c, r, p) == SignedScaled(c, a, f) * SignedScaled(c, b, f) * Pow(c.base, p - 2 * f)
  {
    MultiplyFixedValue(a, b);
    SignedOf(a.format, a, b, MultiplyFixed(a, b), CommonPlaces(a.format, a, b),
      ProductPlaces(2 * CommonPlaces(a.format, a, b), a.format.maxDecimal));
  }

  /** A number with the product of two signs and, scaled to p, the product
    * of two magnitudes scaled to f times base^(p - 2f), has the product of
    * their signed values times base^(p - 2f) as signed value. */
  lemma SignedOf(c: Config, a: BigNumber, b: BigNumber, r: BigNumber, f: nat, p: nat)
    requires f >= |FracPart(c, a.value)| && f >= |FracPart(c, b.value)| && p >= |FracPart(c, r.value)|
    requires c.base >= 0 && 2 * f <= p && Signed(a) && Signed(b) && r.sign == a.sign * b.sign
    requires Scaled(c, r.value, p) == Scaled(c, a.value, f) * Scaled(c, b.value, f) * Pow(c.base, p - 2 * f)
    ensures Signed(r)
    ensures SignedScaled(c, r, p) == SignedScaled(c, a, f) * SignedScaled(c, b, f) * Pow(c.base, p - 2 * f)
  {
    SignedScaledOf(c, a, f, Scaled(c, a.value, f));
    SignedScaledOf(c, b, f, Scaled(c, b.value, f));
    SignedScaledOf(c, r, p, Scaled(c, r.value, p));
    SignedProduct(a.sign, b.sign, r.sign, Scaled(c, a.value, f), Scaled(c, b.value, f), Pow(c.base, p - 2 * f),
      Scaled(c, r.value, p), SignedScaled(c, a, f), SignedScaled(c, b, f), SignedScaled(c, r, p));
  }

  /** The signed value of a number is its scaled value, negated for a
    * negative sign. */
  lemma SignedScaledOf(c: Config, x: BigNumber, f: nat, m: int)
    requires f >= |FracPart(c, x.value)| && c.base >= 0 && Scaled(c, x.value, f) == m
    ensures SignedScaled(c, x, f) == if x.sign < 0 then -m else m
  {
  }

  /** Signs of plus or minus one multiply with the magnitudes: a signed
    * m = x * y * q with the product of the signs is the product of the
    * signed x and y, times q. */
  lemma SignedProduct(s1: int, s2: int, s: int, x: int, y: int, q: int, m: int, sx: int, sy: int, sm: int)
    requires (s1 == 1 || s1 == -1) && (s2 == 1 || s2 == -1) && s == s1 * s2 && m == x * y * q
    requires sx == (if s1 < 0 then -x else x) && sy == (if s2 < 0 then -y else y)
    requires sm == (if s < 0 then -m else m)
    ensures (s == 1 || s == -1) && sm == sx * sy * q
  {
  }

  /** Finding: with maxDecimal not positive, "10" times "10" trims the "0"s
    * of the integer product 100 and yields 1; the corrected form yields 100. */
  lemma MultiplyDropsIntegerZeros(c: Config)
    requires DotConfig(c) && Starts012(c) && c.maxDecimal <= 0
    ensures var a := BigNumber("10", c, 1);
      SameDotConfig(a, a) && MultiplyResult(a, a).value == "1" && MultiplyFixed(a, a).value == "100" &&
      Scaled(c, a.value, 0) == c.base
  {
    var a := BigNumber("10", c, 1);
    TenOperand(c);
    HundredProduct(c);
    HundredCleanUp(c.maxDecimal);
    assert ProductText(a, a, true) == "1";
    assert ProductText(a, a, false) == "100";
    PlainTexts();
  }

  /** NewBigNumber keeps "1" and "100" as they are. */
  lemma PlainTexts()
    ensures NewBigNumber("1").value == "1" && NewBigNumber("100").value == "100"
  {
    assert "1"[0] == '1' && "100"[0] == '1';
    LeadingDigitKept("1");
    LeadingDigitKept("100");
  }

  /** NewBigNumber keeps a text that starts with a symbol other than "-",
    * "0" and "." as it is. */
  lemma LeadingDigitKept(u: string)
    requires u != [] && u[0] != '-' && u[0] != '0' && u[0] != '.'
    ensures NewBigNumber(u).value == u
  {
    assert !HasPrefix(u, "-") by {
      assert u[..1][0] == u[0];
    }
    assert TrimLeft(u, '0') == u;
    assert !HasPrefix(u, ".") by {
      assert u[..1][0] == u[0];
    }
  }

  /** With maxDecimal not positive, cleaning up "0100" with no places gives
    * "1" when integer results are trimmed and "100" when they are not. */
  lemma HundredCleanUp(maxDecimal: int)
    requires maxDecimal <= 0
    ensures MultiplyCleanUp("0100", 0, '.', maxDecimal, true) == "1"
    ensures MultiplyCleanUp("0100", 0, '.', maxDecimal, false) == "100"
  {
    HundredLead();
    assert PadProduct("100", '.', maxDecimal) == "100" by {
      assert '.' !in "100";
    }
    assert EndProduct("100", '.', maxDecimal, true) == "1" by {
      HundredTrim();
      assert !HasSuffix("1", ".");
    }
    assert EndProduct("100", '.', maxDecimal, false) == "100" by {
      assert '.' !in "100" && !HasSuffix("100", ".");
    }
  }

  lemma HundredLead()
    ensures TrimLeading("0100", '.') == "100"
  {
    assert "0100"[1..] == "100";
    assert TrimLeft("100", '0') == "100";
    assert !HasPrefix("100", ".");
  }

  lemma HundredTrim()
    ensures TrimRight("100", '0') == "1"
  {
    assert "100"[..2] == "10" && "10"[..1] == "1";
    assert TrimRight("1", '0') == "1";
  }

  /** The product of "10" and "10" on four symbols is "0100". */
  lemma HundredProduct(c: Config)
    requires DotConfig(c) && Starts012(c)
    ensures ProductDigitsOf(c.alphabet, c.base, "10", "10") == "0100"
  {
    TenDigits(c);
    HundredDigits(c);
    ProductDigitsValue(c, "10", "10");
    SameValueSameDigits(c.alphabet, c.base, ProductDigitsOf(c.alphabet, c.base, "10", "10"), "0100");
  }

  /** "10" is a well-formed operand worth base, with no fraction, whose
    * padded digits are "10". */
  lemma TenOperand(c: Config)
    requires DotConfig(c) && Starts012(c)
    ensures var a := BigNumber("10", c, 1);
      SameDotConfig(a, a) && CommonPlaces(c, a, a) == 0 && PaddedDigits(c, "10", 0) == "10" &&
      Scaled(c, "10", 0) == c.base
  {
    TenDigits(c);
    WellFormedOf(c, "10", []);
    assert DigitsOf(c, "10") == "10" + [] == "10";
    assert PaddedDigits(c, "10", 0) == "10" + ([] + Repeat('0', 0));
    ScaledNoPad(c, "10", 0);
  }

  /** "0100" is the four-symbol digit string worth base * base. */
  lemma HundredDigits(c: Config)
    requires Starts012(c)
    ensures IsDigits(c.alphabet, c.base, "0100") && |"0100"| == |"10"| + |"10"| &&
      Val(c.alphabet, c.base, "0100") == Val(c.alphabet, c.base, "10") * Val(c.alphabet, c.base, "10")
  {
    TenDigits(c);
    assert "0100" == "0" + "100" && "100" == "10" + "0";
    assert Digit(c.alphabet, '0') == 0 by {
      DigitOfSymbol(c.alphabet, c.base, 0);
    }
    ValLeadingZeros(c.alphabet, c.base, "0", "100");
    ValTrailingZeros(c.alphabet, c.base, "10", "0");
    assert "0100"[0] == '0' && "0100"[1] == '1' && "0100"[2] == '0' && "0100"[3] == '0';
    assert c.alphabet[..c.base][0] == '0' && c.alphabet[..c.base][1] == '1';
  }
}
