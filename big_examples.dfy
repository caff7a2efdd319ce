/** The sums, products and quotients that bigNumber.go's own test checks,
  * read back as values: 12 + 12, 0.02 + 0.01, -1 + -1, -1 - -1, 0.02 × 0.01
  * and 1 / 2.
  * Each is stated for any configuration with separator "." whose first
  * symbols are "0", "1" and "2" (the default one among them), with the
  * base-ten reading as a consequence. */
module BigExamples {
  import opened Outcomes
  import opened BigDigits
  import opened BigNumbers
  import opened BigAddSub
  import opened BigValues
  import opened BigMultiply
  import opened BigCompare
  import opened BigSigned
  import opened BigProduct
  import opened BigDivide

  /** A one-symbol digit text is well formed, without fraction, and worth
    * its digit. */
  lemma OneSymbolText(c: Config, d: char)
    requires ValidConfig(c) && d in c.alphabet[..c.base]
    ensures WellFormed(c, [d]) && IntPart(c, [d]) == [d] && |FracPart(c, [d])| == 0
    ensures Scaled(c, [d], 0) == Digit(c.alphabet, d)
  {
    assert IsDigits(c.alphabet, c.base, [d]);
    ValSnoc(c.alphabet, c.base, [], d);
    assert [] + [d] == [d];
    WellFormedOf(c, [d], []);
    PlainDigitsText(c, [d]);
  }

  /** A two-symbol digit text is well formed, without fraction, and worth
    * its first digit times base plus its second. */
  lemma TwoSymbolText(c: Config, d: char, e: char)
    requires ValidConfig(c) && d in c.alphabet[..c.base] && e in c.alphabet[..c.base]
    ensures WellFormed(c, [d, e]) && |FracPart(c, [d, e])| == 0
    ensures Scaled(c, [d, e], 0) == Digit(c.alphabet, d) * c.base + Digit(c.alphabet, e)
  {
    assert IsDigits(c.alphabet, c.base, [d, e]);
    TwoDigitValue(c.alphabet, c.base, d, e);
    PlainDigitsText(c, [d, e]);
  }

  /** Two symbols are worth the first digit times base plus the second. */
  lemma TwoDigitValue(alphabet: string, base: nat, d: char, e: char)
    ensures Val(alphabet, base, [d, e]) == Digit(alphabet, d) * base + Digit(alphabet, e)
  {
    ValSnoc(alphabet, base, [], d);
    assert [] + [d] == [d];
    ValSnoc(alphabet, base, [d], e);
    assert [d] + [e] == [d, e];
  }

  /** "1", "2" and "12" are digit texts worth 1, 2 and base + 2. */
  lemma SmallTexts(c: Config)
    requires DotConfig(c) && Starts012(c)
    ensures WellFormed(c, "1") && |FracPart(c, "1")| == 0 && Scaled(c, "1", 0) == 1
    ensures WellFormed(c, "2") && |FracPart(c, "2")| == 0 && Scaled(c, "2", 0) == 2
    ensures WellFormed(c, "12") && |FracPart(c, "12")| == 0 && Scaled(c, "12", 0) == c.base + 2
    ensures IntPart(c, "2") == "2"
  {
    SmallDigits(c);
    assert c.alphabet[..c.base][1] == '1' && c.alphabet[..c.base][2] == '2';
    OneSymbolText(c, '1');
    OneSymbolText(c, '2');
    TwoSymbolText(c, '1', '2');
    assert "12" == ['1', '2'];
  }

  /** "0.0" followed by a digit symbol d is well formed with two fraction
    * symbols. */
  lemma HundredthForm(c: Config, d: char)
    requires ValidConfig(c) && c.decimalSeparator == '.' && c.alphabet[0] == '0' && d in c.alphabet[..c.base]
    ensures var v := "0.0" + [d];
      WellFormed(c, v) && |FracPart(c, v)| == 2 && DigitsOf(c, v) == "00" + [d]
  {
    var v := "0.0" + [d];
    assert c.alphabet[..c.base][0] == '0';
    var fp := "0" + [d];
    assert IsDigits(c.alphabet, c.base, "0") && IsDigits(c.alphabet, c.base, fp);
    WellFormedOf(c, "0", fp);
    assert "0" + [c.decimalSeparator] + fp == v;
  }

  /** Two "0"s before a digit symbol are worth that digit. */
  lemma ZeroZeroValue(alphabet: string, base: nat, d: char)
    requires Digit(alphabet, '0') == 0
    ensures Val(alphabet, base, "00" + [d]) == Digit(alphabet, d)
  {
    ValSnoc(alphabet, base, [], '0');
    assert [] + ['0'] == "0";
    ValSnoc(alphabet, base, "0", '0');
    assert "0" + ['0'] == "00";
    ValSnoc(alphabet, base, "00", d);
  }

  /** "0.0" followed by the symbol of digit k is worth k at two places. */
  lemma HundredthText(c: Config, k: nat)
    requires DotConfig(c) && k < c.base
    ensures var v := "0.0" + [c.alphabet[k]];
      WellFormed(c, v) && |FracPart(c, v)| == 2 && Scaled(c, v, 2) == k
  {
    var d := c.alphabet[k];
    var v := "0.0" + [d];
    DigitOfSymbol(c.alphabet, c.base, 0);
    DigitOfSymbol(c.alphabet, c.base, k);
    assert d in c.alphabet[..c.base] by {
      assert c.alphabet[..c.base][k] == d;
    }
    HundredthForm(c, d);
    ZeroZeroValue(c.alphabet, c.base, d);
    ScaledNoPad(c, v, 2);
  }

  /** "0.02" and "0.01" are worth 2 and 1 at two places. */
  lemma HundredthsTexts(c: Config)
    requires DotConfig(c) && Starts012(c)
    ensures WellFormed(c, "0.02") && |FracPart(c, "0.02")| == 2 && Scaled(c, "0.02", 2) == 2
    ensures WellFormed(c, "0.01") && |FracPart(c, "0.01")| == 2 && Scaled(c, "0.01", 2) == 1
  {
    HundredthText(c, 2);
    HundredthText(c, 1);
    assert "0.0" + [c.alphabet[2]] == "0.02" && "0.0" + [c.alphabet[1]] == "0.01";
  }

  /** 12 + 12: a number without fraction symbols worth 2 · (base + 2), so
    * "24" in base ten. */
  lemma TwelvePlusTwelve(c: Config)
    requires DotConfig(c) && Starts012(c)
    ensures var a := BigNumber("12", c, 1);
      PlusOperands(a, a) && Plus(a, a).sign == 1 && WellFormed(c, Plus(a, a).value) &&
      |FracPart(c, Plus(a, a).value)| == 0 && Scaled(c, Plus(a, a).value, 0) == 2 * (c.base + 2) &&
      (c.base == 10 ==> Scaled(c, Plus(a, a).value, 0) == 24)
  {
    var a := BigNumber("12", c, 1);
    SmallTexts(c);
    PlusSameSign(a, a);
  }

  /** -1 + -1 is -2 and -1 - -1 is 0. */
  lemma MinusOnes(c: Config)
    requires DotConfig(c) && Starts012(c)
    ensures var a := BigNumber("1", c, -1);
      PlusOperands(a, a) && MinusOperands(a, a) &&
      WellFormed(c, Plus(a, a).value) && |FracPart(c, Plus(a, a).value)| == 0 &&
      SignedScaled(c, Plus(a, a), 0) == -2 &&
      WellFormed(c, Minus(a, a).value) && |FracPart(c, Minus(a, a).value)| == 0 &&
      SignedScaled(c, Minus(a, a), 0) == 0
  {
    var a := BigNumber("1", c, -1);
    SmallTexts(c);
    PlusSameSign(a, a);
    MinusSameSign(a, a);
  }

  /** 0.02 + 0.01: two fraction symbols worth 3, so "0.03". */
  lemma HundredthsSum(c: Config)
    requires DotConfig(c) && Starts012(c)
    ensures var a, b := BigNumber("0.02", c, 1), BigNumber("0.01", c, 1);
      PlusOperands(a, b) && Plus(a, b).sign == 1 && WellFormed(c, Plus(a, b).value) &&
      |FracPart(c, Plus(a, b).value)| == 2 && Scaled(c, Plus(a, b).value, 2) == 3
  {
    var a, b := BigNumber("0.02", c, 1), BigNumber("0.01", c, 1);
    HundredthsTexts(c);
    assert CommonPlaces(c, a, b) == 2;
    PlusSameSign(a, b);
  }

  /** 0.02 × 0.01 with maxDecimal above 4: maxDecimal fraction symbols
    * worth 2 · base^(maxDecimal - 4), so "0.000200" with the default six
    * places in base ten. */
  lemma HundredthsProduct(c: Config)
    requires DotConfig(c) && Starts012(c) && c.maxDecimal > 4
    ensures var a, b := BigNumber("0.02", c, 1), BigNumber("0.01", c, 1);
      MultiplyOperands(a, b) && MultiplyResult(a, b).sign == 1 &&
      WellFormed(c, MultiplyResult(a, b).value) &&
      |FracPart(c, MultiplyResult(a, b).value)| == c.maxDecimal &&
      Scaled(c, MultiplyResult(a, b).value, c.maxDecimal) == 2 * Pow(c.base, c.maxDecimal - 4) &&
      (c.base == 10 && c.maxDecimal == 6 ==> Scaled(c, MultiplyResult(a, b).value, c.maxDecimal) == 200)
  {
    var a, b := BigNumber("0.02", c, 1), BigNumber("0.01", c, 1);
    HundredthsTexts(c);
    assert CommonPlaces(c, a, b) == 2;
    MultiplyValueIn(a, b);
    assert ProductPlaces(4, c.maxDecimal) == c.maxDecimal;
    assert 2 * 1 * Pow(c.base, c.maxDecimal - 4) == 2 * Pow(c.base, c.maxDecimal - 4);
  }

  /** 1 / 2: maxDecimal fraction symbols worth base^maxDecimal / 2, so
    * "0.500000" with the default six places in base ten. */
  lemma OneByTwo(c: Config)
    requires DotConfig(c) && Starts012(c) && c.maxDecimal >= 0
    ensures var a, b := BigNumber("1", c, 1), BigNumber("2", c, 1);
      MultiplyOperands(a, b) && DivideResult(a, b).Done? && DivideResult(a, b).value.sign == 1 &&
      WellFormed(c, DivideResult(a, b).value.value) &&
      |FracPart(c, DivideResult(a, b).value.value)| == c.maxDecimal &&
      Scaled(c, DivideResult(a, b).value.value, c.maxDecimal) == Pow(c.base, c.maxDecimal) / 2 &&
      (c.base == 10 && c.maxDecimal == 6 ==> Scaled(c, DivideResult(a, b).value.value, c.maxDecimal) == 500000)
  {
    var a, b := BigNumber("1", c, 1), BigNumber("2", c, 1);
    SmallTexts(c);
    assert CommonPlaces(c, a, b) == 0;
    assert b.value != "0";
    assert LeadDigit(c, b) == 2 by {
      SmallDigits(c);
    }
    DivideValueIn(a, b);
    assert Widened(1, c.base, c.maxDecimal) == Pow(c.base, c.maxDecimal);
  }
}
