/** What `add` and `Sub` of bigNumber.go compute, read back as numbers. For
  * two well-formed operands in one configuration, values are compared
  * scaled by base^f, f the longer fraction: `add` yields the sum, and `Sub`
  * the difference when the receiver is the larger. */
module BigValues {
  import opened GoStrings
  import opened BigDigits
  import opened BigNumbers
  import opened BigAddSub

  /** Two well-formed operands in one configuration whose texts NewBigNumber
    * reads correctly. */
  predicate SameDotConfig(a: BigNumber, b: BigNumber)
  {
    a.format == b.format && DotConfig(a.format) &&
    WellFormed(a.format, a.value) && WellFormed(a.format, b.value)
  }

  /** A value scaled to exactly its own number of fraction symbols is the
    * value of its digits. */
  lemma ScaledNoPad(c: Config, v: string, f: nat)
    requires f == |FracPart(c, v)| && c.base >= 0
    ensures Scaled(c, v, f) == Val(c.alphabet, c.base, DigitsOf(c, v))
  {
    var k := f - |FracPart(c, v)|;
    assert k == 0;
    assert Pow(c.base, k) == 1;
    MulOne(Val(c.alphabet, c.base, DigitsOf(c, v)), Pow(c.base, k));
  }

  lemma MulOne(x: int, p: int)
    requires p == 1
    ensures x * p == x
  {
  }

  /** Such a configuration is one the column loops accept. */
  lemma DotLoopConfig(c: Config)
    requires DotConfig(c)
    ensures LoopConfig(c)
  {
    ZeroIsNoSeparator(c);
  }

  lemma NoSeparatorNoFraction(c: Config, v: string)
    requires c.decimalSeparator !in v
    ensures FracPart(c, v) == []
  {
  }

  /** Digits of the base are no separator. */
  lemma SeparatorFree(c: Config, s: string)
    requires ValidConfig(c) && IsDigits(c.alphabet, c.base, s)
    ensures c.decimalSeparator !in s
  {
    forall k | 0 <= k < |s| ensures s[k] != c.decimalSeparator {
      assert s[k] in c.alphabet[..c.base];
    }
  }

  /** A well-formed text of such a configuration has no "-". */
  lemma NoMinusInWellFormed(c: Config, u: string)
    requires DotConfig(c) && WellFormed(c, u)
    ensures '-' !in u
  {
    var ip, fp := IntPart(c, u), FracPart(c, u);
    WellFormedDigits(c, u);
    SplitDigits(c, ip, fp);
    forall k | 0 <= k < |u| ensures u[k] != '-' {
      if k < |ip| {
        assert u[k] == ip[k] && ip[k] in c.alphabet[..c.base];
      } else if k > |ip| {
        assert u[k] == fp[k - |ip| - 1] && fp[k - |ip| - 1] in c.alphabet[..c.base];
      }
    }
  }

  /** The padded digits of a well-formed value are digits worth the value
    * scaled to f, and there is at least one more of them than f. */
  lemma PaddedDigitsValue(c: Config, v: string, f: nat)
    requires WellFormed(c, v) && f >= |FracPart(c, v)|
    ensures var d := PaddedDigits(c, v, f);
      IsDigits(c.alphabet, c.base, d) && Val(c.alphabet, c.base, d) == Scaled(c, v, f) && |d| > f
  {
    PaddedDigitsAreDigits(c, v, f);
    PaddedValue(c, v, f);
  }

  lemma PaddedDigitsAreDigits(c: Config, v: string, f: nat)
    requires WellFormed(c, v) && f >= |FracPart(c, v)|
    ensures var d := PaddedDigits(c, v, f);
      IsDigits(c.alphabet, c.base, d) && |d| > f
    ensures PaddedDigits(c, v, f) == IntPart(c, v) + FracPart(c, v) + Repeat('0', f - |FracPart(c, v)|)
  {
    var ip, fp := IntPart(c, v), FracPart(c, v);
    var z := Repeat('0', f - |fp|);
    assert PaddedDigits(c, v, f) == (ip + fp) + z;
    WellFormedDigits(c, v);
    ZerosAreDigits(c, f - |fp|);
    ConcatDigits(c.alphabet, c.base, ip + fp, z);
  }

  /** A digit string with the separator put back f symbols from the right
    * is well formed, has f fraction symbols, and its digits are the string,
    * once the string is longer than f. */
  lemma PlacedText(c: Config, digits: string, f: nat)
    requires ValidConfig(c) && IsDigits(c.alphabet, c.base, digits) && |digits| > f
    ensures var u := InsertDecimalPoint(digits, f, c.decimalSeparator);
      WellFormed(c, u) && |FracPart(c, u)| == f && DigitsOf(c, u) == digits
  {
    var sep := c.decimalSeparator;
    ZeroIsNoSeparator(c);
    SeparatorFree(c, digits);
    if f == 0 {
      WellFormedOf(c, digits, []);
      assert digits + [] == digits;
    } else {
      InsertThenSplit(digits, f, sep);
      var (ip, fp) := SplitDecimal(InsertDecimalPoint(digits, f, sep), sep);
      assert Repeat('0', 0) + digits == digits;
      SplitDigits(c, ip, fp);
      WellFormedOf(c, ip, fp);
    }
  }

  /** NewBigNumber of a well-formed text, "0"s trimmed in front or not, is
    * positive, well formed, and keeps the fraction and the digit value. */
  lemma NewBigNumberOfText(c: Config, u: string)
    requires DotConfig(c) && WellFormed(c, u)
    ensures NewBigNumber(TrimLeft(u, '0')) == NewBigNumber(u)
    ensures var r := NewBigNumber(u);
      r.sign == 1 && WellFormed(c, r.value) && FracPart(c, r.value) == FracPart(c, u) &&
      Val(c.alphabet, c.base, DigitsOf(c, r.value)) == Val(c.alphabet, c.base, DigitsOf(c, u))
  {
    NoMinusInWellFormed(c, u);
    NewBigNumberTrimmed(u);
    CanonicalDigitsValue(c, u);
  }

  // ---------------------------------------------------------------------
  // add

  /** `add` yields the sum: for well-formed operands in one configuration the
    * result is positive and well formed (read in that configuration's
    * symbols), has exactly the longer fraction's number of symbols, and is
    * worth the sum of both values. */
  lemma AddValueIn(a: BigNumber, b: BigNumber)
    requires SameDotConfig(a, b)
    ensures LoopConfig(a.format)
    ensures var c, f, r := a.format, CommonPlaces(a.format, a, b), AddResult(a, b);
      r.sign == 1 && WellFormed(c, r.value) && |FracPart(c, r.value)| == f &&
      Scaled(c, r.value, f) == Scaled(c, a.value, f) + Scaled(c, b.value, f)
  {
    var c := a.format;
    DotLoopConfig(c);
    var f := CommonPlaces(c, a, b);
    var u := InsertDecimalPoint(SumDigits(a, b), f, c.decimalSeparator);
    AddText(a, b);
    SumDigitsValue(a, b);
    PlacedText(c, SumDigits(a, b), f);
    NewBigNumberOfText(c, u);
    ScaledNoPad(c, AddResult(a, b).value, f);
  }

  /** Whether or not an operand has a separator, `add` puts one back f
    * symbols from the right (with f = 0 there is none to put back). */
  lemma AddText(a: BigNumber, b: BigNumber)
    requires a.format == b.format && LoopConfig(a.format)
    ensures AddResult(a, b) ==
      NewBigNumber(TrimLeft(InsertDecimalPoint(SumDigits(a, b), CommonPlaces(a.format, a, b), a.format.decimalSeparator), '0'))
  {
    var c := a.format;
    if c.decimalSeparator !in a.value && c.decimalSeparator !in b.value {
      NoSeparatorNoFraction(c, a.value);
      NoSeparatorNoFraction(c, b.value);
    }
  }

  /** The summed symbols are digits worth the sum of both scaled values, and
    * there are more of them than fraction places. */
  lemma SumDigitsValue(a: BigNumber, b: BigNumber)
    requires SameDotConfig(a, b)
    ensures LoopConfig(a.format)
    ensures var c, f, s := a.format, CommonPlaces(a.format, a, b), SumDigits(a, b);
      IsDigits(c.alphabet, c.base, s) && |s| > f &&
      Val(c.alphabet, c.base, s) == Scaled(c, a.value, f) + Scaled(c, b.value, f)
  {
    var c := a.format;
    DotLoopConfig(c);
    var f := CommonPlaces(c, a, b);
    var d1, d2 := PaddedDigits(c, a.value, f), PaddedDigits(c, b.value, f);
    PaddedDigitsValue(c, a.value, f);
    PaddedDigitsValue(c, b.value, f);
    var s := SumValue(c.alphabet, c.alphabet, c.base, d1, d2);
    var w := Width(c.base, s, Max(|d1|, |d2|));
    assert SumDigits(a, b) == Represent(c.alphabet, c.base, s, w);
    RepresentDigits(c.alphabet, c.base, s, w);
    ValRepresent(c.alphabet, c.base, s, w);
  }

  /** `add` of two well-formed default-configuration numbers. */
  lemma AddValue(a: BigNumber, b: BigNumber)
    requires a.format == DefaultConfig && b.format == DefaultConfig
    requires WellFormed(DefaultConfig, a.value) && WellFormed(DefaultConfig, b.value)
    ensures LoopConfig(a.format)
    ensures var f, r := CommonPlaces(DefaultConfig, a, b), AddResult(a, b);
      r.sign == 1 && r.format == DefaultConfig && WellFormed(DefaultConfig, r.value) &&
      |FracPart(DefaultConfig, r.value)| == f &&
      Scaled(DefaultConfig, r.value, f) == Scaled(DefaultConfig, a.value, f) + Scaled(DefaultConfig, b.value, f)
  {
    DefaultConfigDot();
    AddValueIn(a, b);
  }

  // ---------------------------------------------------------------------
  // Sub

  /** Trimming "0"s at the end of a text with a separator trims its
    * fraction, and drops the separator when nothing of the fraction is left. */
  lemma TrimFractionOf(ip: string, fp: string, sep: char)
    requires sep != '0' && sep !in fp
    ensures TrimFraction(ip + [sep] + fp, sep) ==
      if TrimRight(fp, '0') == [] then ip else ip + [sep] + TrimRight(fp, '0')
  {
    var fp' := TrimRight(fp, '0');
    TrimRightConcat(ip + [sep], fp, '0');
    if fp' == [] {
      assert TrimRight(ip + [sep], '0') == ip + [sep];
      assert HasSuffix(ip + [sep], [sep]);
      assert (ip + [sep])[..|ip|] == ip;
    } else {
      assert fp'[|fp'| - 1] == fp[|fp'| - 1];
      var t := ip + [sep] + fp';
      assert t[|t| - 1] != sep;
      assert t[|t| - 1..] == [t[|t| - 1]];
    }
  }

  /** A well-formed text ip.fp, "0"s trimmed at its end, is well formed and
    * keeps its value scaled to |fp|. */
  lemma TrimFractionValue(c: Config, ip: string, fp: string)
    requires ValidConfig(c) && |ip| >= 1 && IsDigits(c.alphabet, c.base, ip) && IsDigits(c.alphabet, c.base, fp)
    ensures var u := TrimFraction(ip + [c.decimalSeparator] + fp, c.decimalSeparator);
      WellFormed(c, u) && |FracPart(c, u)| <= |fp| &&
      Scaled(c, u, |fp|) == Val(c.alphabet, c.base, ip + fp)
  {
    var sep := c.decimalSeparator;
    var fp' := TrimRight(fp, '0');
    assert sep != '0' && sep !in fp by {
      ZeroIsNoSeparator(c);
      SeparatorFree(c, fp);
    }
    TrimFractionOf(ip, fp, sep);
    TrimmedTail(c, ip, fp);
    TrimmedText(c, ip, fp');
  }

  /** The "0"s trimmed at the end of a fraction multiply the value by a
    * power of the base. */
  lemma TrimmedTail(c: Config, ip: string, fp: string)
    requires ValidConfig(c) && IsDigits(c.alphabet, c.base, fp)
    ensures var fp' := TrimRight(fp, '0');
      IsDigits(c.alphabet, c.base, fp') &&
      Val(c.alphabet, c.base, ip + fp) == Val(c.alphabet, c.base, ip + fp') * Pow(c.base, |fp| - |fp'|)
  {
    var fp' := TrimRight(fp, '0');
    var z := fp[|fp'|..];
    assert fp == fp' + z;
    assert forall k :: 0 <= k < |z| ==> Digit(c.alphabet, z[k]) == 0 by {
      ZeroIsNoSeparator(c);
      forall k | 0 <= k < |z| ensures Digit(c.alphabet, z[k]) == 0 {
        assert z[k] == fp[|fp'| + k] == '0';
      }
    }
    assert ip + fp == (ip + fp') + z;
    ValTrailingZeros(c.alphabet, c.base, ip + fp', z);
    SplitDigits(c, fp', z);
  }

  /** An integer part and a fraction, joined by the separator unless the
    * fraction is empty, make a well-formed text with that fraction. */
  lemma TrimmedText(c: Config, ip: string, fp: string)
    requires ValidConfig(c) && |ip| >= 1 && IsDigits(c.alphabet, c.base, ip) && IsDigits(c.alphabet, c.base, fp)
    ensures var u := if fp == [] then ip else ip + [c.decimalSeparator] + fp;
      WellFormed(c, u) && FracPart(c, u) == fp && DigitsOf(c, u) == ip + fp
  {
    WellFormedOf(c, ip, fp);
    assert ip + [] == ip;
  }

  /** Sub's clean-up keeps the value of the written symbols whenever the
    * separator goes back in front of at least one symbol or not at all: the
    * text is well formed, has at most `places` fraction symbols, and scaled
    * to `places` it is worth the symbols. */
  lemma SubCleanUpValue(c: Config, digits: string, places: nat, hasDecimal: bool)
    requires DotConfig(c) && IsDigits(c.alphabet, c.base, digits)
    requires hasDecimal <==> places > 0
    ensures var u := SubCleanUp(digits, places, hasDecimal, c.decimalSeparator);
      WellFormed(c, u) && |FracPart(c, u)| <= places &&
      Scaled(c, u, places) == Val(c.alphabet, c.base, digits)
  {
    if hasDecimal {
      CleanUpPlaced(c, digits, places, hasDecimal);
    } else {
      CleanUpPlain(c, digits, places, hasDecimal);
    }
  }

  /** The "0"s trimmed in front of digits leave digits of the same value. */
  lemma TrimmedDigits(c: Config, digits: string)
    requires ValidConfig(c) && IsDigits(c.alphabet, c.base, digits)
    ensures var t := TrimLeft(digits, '0');
      IsDigits(c.alphabet, c.base, t) && Val(c.alphabet, c.base, t) == Val(c.alphabet, c.base, digits)
  {
    var t := TrimLeft(digits, '0');
    SplitDigits(c, digits, []);
    TrimmedZerosValue(c, digits, []);
    assert digits + [] == digits && t + [] == t;
  }

  lemma CleanUpPlaced(c: Config, digits: string, places: nat, hasDecimal: bool)
    requires DotConfig(c) && IsDigits(c.alphabet, c.base, digits) && places > 0 && hasDecimal
    ensures var u := SubCleanUp(digits, places, hasDecimal, c.decimalSeparator);
      WellFormed(c, u) && |FracPart(c, u)| <= places &&
      Scaled(c, u, places) == Val(c.alphabet, c.base, digits)
  {
    var sep := c.decimalSeparator;
    var trimmed := TrimLeft(digits, '0');
    TrimmedDigits(c, digits);
    PlacedTrimmed(c, trimmed, places);
    assert SubCleanUp(digits, places, hasDecimal, sep) == TrimFraction(InsertDecimalPoint(trimmed, places, sep), sep);
  }

  lemma CleanUpPlain(c: Config, digits: string, places: nat, hasDecimal: bool)
    requires DotConfig(c) && IsDigits(c.alphabet, c.base, digits) && places == 0 && !hasDecimal
    ensures var u := SubCleanUp(digits, places, hasDecimal, c.decimalSeparator);
      WellFormed(c, u) && |FracPart(c, u)| <= places &&
      Scaled(c, u, places) == Val(c.alphabet, c.base, digits)
  {
    var trimmed := TrimLeft(digits, '0');
    assert SubCleanUp(digits, places, hasDecimal, c.decimalSeparator) == if trimmed == "" then "0" else trimmed;
    TrimmedDigits(c, digits);
    PlainText(c, trimmed);
  }

  /** Digits with no separator, "0" for none, make a well-formed text worth
    * the digits. */
  lemma PlainText(c: Config, t: string)
    requires ValidConfig(c) && IsDigits(c.alphabet, c.base, t)
    ensures var u := if t == "" then "0" else t;
      WellFormed(c, u) && |FracPart(c, u)| == 0 && Scaled(c, u, 0) == Val(c.alphabet, c.base, t)
  {
    if t == "" {
      ZeroText(c);
      ScaledNoPad(c, "0", 0);
    } else {
      PlainDigitsText(c, t);
    }
  }

  lemma PlainDigitsText(c: Config, t: string)
    requires ValidConfig(c) && IsDigits(c.alphabet, c.base, t) && t != ""
    ensures WellFormed(c, t) && |FracPart(c, t)| == 0 && Scaled(c, t, 0) == Val(c.alphabet, c.base, t)
  {
    WellFormedOf(c, t, []);
    assert DigitsOf(c, t) == t + [] == t;
    ScaledNoPad(c, t, 0);
  }

  /** Digits with the separator put back `places` symbols from the right,
    * then "0"s trimmed at the end: a non-empty well-formed text worth the
    * digits scaled to `places`. */
  lemma PlacedTrimmed(c: Config, t: string, places: nat)
    requires ValidConfig(c) && IsDigits(c.alphabet, c.base, t) && places > 0
    ensures var u := TrimFraction(InsertDecimalPoint(t, places, c.decimalSeparator), c.decimalSeparator);
      u != "" && WellFormed(c, u) && |FracPart(c, u)| <= places &&
      Scaled(c, u, places) == Val(c.alphabet, c.base, t)
  {
    var sep := c.decimalSeparator;
    SeparatorFree(c, t);
    ZeroIsNoSeparator(c);
    InsertThenSplit(t, places, sep);
    var (ip, fp) := SplitDecimal(InsertDecimalPoint(t, places, sep), sep);
    var z := Repeat('0', PointPadding(|t|, places));
    assert IsDigits(c.alphabet, c.base, ip) && IsDigits(c.alphabet, c.base, fp) &&
      Val(c.alphabet, c.base, ip + fp) == Val(c.alphabet, c.base, t) by {
      ZerosAreDigits(c, |z|);
      ConcatDigits(c.alphabet, c.base, z, t);
      SplitDigits(c, ip, fp);
      ValLeadingZeros(c.alphabet, c.base, z, t);
    }
    TrimFractionValue(c, ip, fp);
  }

  /** `Sub` yields the difference when the receiver is at least the
    * argument: for well-formed operands in one configuration, neither of
    * which ends in a bare separator with no fraction digit anywhere, the
    * result is positive, well formed, has at most the longer fraction's
    * number of symbols, and is worth the difference of the values. */
  lemma SubValueIn(a: BigNumber, b: BigNumber)
    requires SameDotConfig(a, b)
    requires CommonPlaces(a.format, a, b) > 0 ||
      (a.format.decimalSeparator !in a.value && a.format.decimalSeparator !in b.value)
    requires Scaled(a.format, b.value, CommonPlaces(a.format, a, b)) <= Scaled(a.format, a.value, CommonPlaces(a.format, a, b))
    ensures SubOperands(a, b)
    ensures var c, f := a.format, CommonPlaces(a.format, a, b);
      Worth(c, SubResult(a, b), f, Scaled(c, a.value, f) - Scaled(c, b.value, f))
  {
    var c := a.format;
    var f := CommonPlaces(c, a, b);
    DifferenceDigitsValue(a, b);
    var digits := DifferenceDigits(a, b);
    var x := Scaled(c, a.value, f) - Scaled(c, b.value, f);
    assert IsDigits(c.alphabet, c.base, digits) && Val(c.alphabet, c.base, digits) == x;
    SubResultWorth(a, b, digits, x);
  }

  /** The result of `Sub` is worth the value of the borrow loop's digits. */
  lemma SubResultWorth(a: BigNumber, b: BigNumber, digits: string, x: int)
    requires a.format == b.format && DotConfig(a.format) && SubOperands(a, b)
    requires CommonPlaces(a.format, a, b) > 0 ||
      (a.format.decimalSeparator !in a.value && a.format.decimalSeparator !in b.value)
    requires digits == DifferenceDigits(a, b) && IsDigits(a.format.alphabet, a.format.base, digits)
    requires Val(a.format.alphabet, a.format.base, digits) == x
    ensures Worth(a.format, SubResult(a, b), CommonPlaces(a.format, a, b), x)
  {
    var c := a.format;
    SubText(a, b);
    SubNumberValue(c, digits, CommonPlaces(c, a, b), c.decimalSeparator in a.value || c.decimalSeparator in b.value,
      x, SubResult(a, b));
  }

  /** The difference digits, cleaned up and read back as a number, are
    * worth their value at `places` fraction symbols. */
  lemma SubNumberValue(c: Config, digits: string, places: nat, hasDecimal: bool, x: int, r: BigNumber)
    requires DotConfig(c) && IsDigits(c.alphabet, c.base, digits)
    requires (hasDecimal <==> places > 0) && Val(c.alphabet, c.base, digits) == x
    requires r == NewBigNumber(SubCleanUp(digits, places, hasDecimal, c.decimalSeparator))
    ensures Worth(c, r, places, x)
  {
    SubCleanUpValue(c, digits, places, hasDecimal);
    NumberOfScaledText(c, SubCleanUp(digits, places, hasDecimal, c.decimalSeparator), places, x);
  }

  /** `r` is a positive well-formed number with at most `f` fraction
    * symbols, worth `x` scaled to `f`. */
  predicate Worth(c: Config, r: BigNumber, f: nat, x: int)
  {
    r.sign == 1 && WellFormed(c, r.value) && |FracPart(c, r.value)| <= f && c.base >= 0 &&
    Scaled(c, r.value, f) == x
  }

  /** Worth, with exactly `f` fraction symbols. */
  predicate WorthExactly(c: Config, r: BigNumber, f: nat, x: int)
  {
    Worth(c, r, f, x) && |FracPart(c, r.value)| == f
  }

  /** A well-formed text read back as a number keeps its scaled value. */
  lemma NumberOfScaledText(c: Config, u: string, f: nat, x: nat)
    requires DotConfig(c) && WellFormed(c, u) && |FracPart(c, u)| <= f && Scaled(c, u, f) == x
    ensures Worth(c, NewBigNumber(u), f, x)
  {
    NewBigNumberOfText(c, u);
    ScaledSame(c, NewBigNumber(u).value, u, f);
  }

  /** With one configuration, Sub puts the separator back (and trims at the
    * end) exactly when there are fraction places, once no operand ends in a
    * bare separator. */
  lemma SubText(a: BigNumber, b: BigNumber)
    requires a.format == b.format && SubOperands(a, b)
    requires CommonPlaces(a.format, a, b) > 0 ||
      (a.format.decimalSeparator !in a.value && a.format.decimalSeparator !in b.value)
    ensures var sep, f := a.format.decimalSeparator, CommonPlaces(a.format, a, b);
      var hasDecimal := sep in a.value || sep in b.value;
      (hasDecimal <==> f > 0) &&
      SubResult(a, b) == NewBigNumber(SubCleanUp(DifferenceDigits(a, b), f, hasDecimal, sep))
  {
    var c := a.format;
    if c.decimalSeparator !in a.value && c.decimalSeparator !in b.value {
      NoSeparatorNoFraction(c, a.value);
      NoSeparatorNoFraction(c, b.value);
    }
  }

  /** The borrow loop's symbols are digits worth the difference when the
    * receiver's scaled value is at least the argument's. */
  lemma DifferenceDigitsValue(a: BigNumber, b: BigNumber)
    requires SameDotConfig(a, b)
    requires Scaled(a.format, b.value, CommonPlaces(a.format, a, b)) <= Scaled(a.format, a.value, CommonPlaces(a.format, a, b))
    ensures SubOperands(a, b)
    ensures var c, f, s := a.format, CommonPlaces(a.format, a, b), DifferenceDigits(a, b);
      IsDigits(c.alphabet, c.base, s) &&
      Val(c.alphabet, c.base, s) == Scaled(c, a.value, f) - Scaled(c, b.value, f)
  {
    var c := a.format;
    DotLoopConfig(c);
    var f := CommonPlaces(c, a, b);
    var d1, d2 := PaddedDigits(c, a.value, f), PaddedDigits(c, b.value, f);
    PaddedDigitsValue(c, a.value, f);
    PaddedDigitsValue(c, b.value, f);
    var m := Max(|d1|, |d2|);
    DigitsBelowOf(c.alphabet, c.base, d1);
    DigitsBelowOf(c.alphabet, c.base, d2);
    BorrowOutTotal(c.alphabet, c.base, d1, d2);
    WrappedDifferenceValue(c.alphabet, c.base, d1, d2, m);
    var n := WrappedDifference(c.alphabet, c.base, d1, d2, m);
    assert DifferenceDigits(a, b) == Represent(c.alphabet, c.base, n, m);
    RepresentDigits(c.alphabet, c.base, n, m);
  }

  /** Two texts with the same fraction and the same digit value are worth
    * the same at any scale. */
  lemma ScaledSame(c: Config, v: string, w: string, f: nat)
    requires c.base >= 0 && FracPart(c, v) == FracPart(c, w) && f >= |FracPart(c, w)|
    requires Val(c.alphabet, c.base, DigitsOf(c, v)) == Val(c.alphabet, c.base, DigitsOf(c, w))
    ensures Scaled(c, v, f) == Scaled(c, w, f)
  {
    var p := Pow(c.base, f - |FracPart(c, w)|);
    assert Scaled(c, v, f) == Val(c.alphabet, c.base, DigitsOf(c, v)) * p;
    assert Scaled(c, w, f) == Val(c.alphabet, c.base, DigitsOf(c, w)) * p;
  }

  /** `Sub` of two well-formed default-configuration numbers, the receiver
    * the larger. */
  lemma SubValue(a: BigNumber, b: BigNumber)
    requires a.format == DefaultConfig && b.format == DefaultConfig
    requires WellFormed(DefaultConfig, a.value) && WellFormed(DefaultConfig, b.value)
    requires CommonPlaces(DefaultConfig, a, b) > 0 || ('.' !in a.value && '.' !in b.value)
    requires Scaled(DefaultConfig, b.value, CommonPlaces(DefaultConfig, a, b)) <=
      Scaled(DefaultConfig, a.value, CommonPlaces(DefaultConfig, a, b))
    ensures SubOperands(a, b)
    ensures var f, r := CommonPlaces(DefaultConfig, a, b), SubResult(a, b);
      r.sign == 1 && r.format == DefaultConfig && WellFormed(DefaultConfig, r.value) &&
      |FracPart(DefaultConfig, r.value)| <= f &&
      Scaled(DefaultConfig, r.value, f) == Scaled(DefaultConfig, a.value, f) - Scaled(DefaultConfig, b.value, f)
  {
    DefaultConfigDot();
    SubValueIn(a, b);
  }
}
