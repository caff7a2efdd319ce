/** Plus and Minus of bigNumber.go: the sign handling around `add` and
  * `Sub`, read back as signed values; where it goes wrong, and the corrected
  * forms, proved to add and subtract. */
module BigSigned {
  import opened GoStrings
  import opened BigDigits
  import opened BigNumbers
  import opened BigAddSub
  import opened BigValues
  import opened BigCompare

  /** A sign as NewBigNumber sets it. */
  predicate Signed(x: BigNumber)
  {
    x.sign == 1 || x.sign == -1
  }

  // ---------------------------------------------------------------------
  // Plus and Minus as written

  /** What the branch Plus takes needs of its operands. */
  predicate PlusOperands(a: BigNumber, b: BigNumber)
  {
    if a.sign == b.sign then LoopConfig(a.format)
    else if IsGreaterThan(a, b) then SubOperands(a, b)
    else SubOperands(b, a)
  }

  /** Plus: one sign adds the magnitudes and keeps the sign; otherwise the
    * larger operand by ComparedTo loses the other and gives its sign. */
  function Plus(a: BigNumber, b: BigNumber): BigNumber
    requires PlusOperands(a, b)
  {
    if a.sign == b.sign then AddResult(a, b).(sign := a.sign)
    else if IsGreaterThan(a, b) then SubResult(a, b).(sign := a.sign)
    else SubResult(b, a).(sign := b.sign)
  }

  /** What the branch Minus takes needs of its operands. */
  predicate MinusOperands(a: BigNumber, b: BigNumber)
  {
    if a.sign != b.sign then LoopConfig(a.format)
    else if IsGreaterThan(a, b) then SubOperands(a, b)
    else SubOperands(b, a)
  }

  /** Minus: one sign subtracts the smaller magnitude by ComparedTo from the
    * larger, negating when the argument is the larger; different signs add
    * the magnitudes under the receiver's sign. */
  function Minus(a: BigNumber, b: BigNumber): BigNumber
    requires MinusOperands(a, b)
  {
    if a.sign == b.sign then
      if IsGreaterThan(a, b) then SubResult(a, b).(sign := a.sign)
      else SubResult(b, a).(sign := -a.sign)
    else AddResult(a, b).(sign := a.sign)
  }

  /** Well-formed operands in one configuration can go through the borrow
    * loop in either order. */
  lemma SubOperandsOf(a: BigNumber, b: BigNumber)
    requires SameDotConfig(a, b)
    ensures SubOperands(a, b) && SubOperands(b, a)
  {
    var c := a.format;
    DotLoopConfig(c);
    PaddedDigitsValue(c, a.value, CommonPlaces(c, b, a));
    PaddedDigitsValue(c, b.value, CommonPlaces(c, a, b));
  }

  /** Plus of operands of one sign is their sum: the result is well formed,
    * has the longer fraction's number of symbols, and its signed value is
    * the sum of the signed values. */
  lemma PlusSameSign(a: BigNumber, b: BigNumber)
    requires SameDotConfig(a, b) && a.sign == b.sign
    ensures PlusOperands(a, b)
    ensures var c, f, r := a.format, CommonPlaces(a.format, a, b), Plus(a, b);
      WellFormed(c, r.value) && |FracPart(c, r.value)| == f &&
      SignedScaled(c, r, f) == SignedScaled(c, a, f) + SignedScaled(c, b, f)
  {
    AddSum(a, b);
  }

  /** With signs of both kinds, ComparedTo always answers 1, so Plus always
    * subtracts the argument from the receiver and keeps the receiver's sign. */
  lemma PlusMixedSigns(a: BigNumber, b: BigNumber)
    requires Signed(a) && Signed(b) && a.sign != b.sign && PlusOperands(a, b)
    ensures IsGreaterThan(a, b) && Plus(a, b) == SubResult(a, b).(sign := a.sign)
  {
  }

  /** That is the sum whenever the receiver's magnitude is at least the
    * argument's (and no operand ends in a bare separator while neither has
    * a fraction digit). */
  lemma PlusMixedValue(a: BigNumber, b: BigNumber)
    requires SameDotConfig(a, b) && Signed(a) && Signed(b) && a.sign != b.sign
    requires CommonPlaces(a.format, a, b) > 0 ||
      (a.format.decimalSeparator !in a.value && a.format.decimalSeparator !in b.value)
    requires Scaled(a.format, b.value, CommonPlaces(a.format, a, b)) <= Scaled(a.format, a.value, CommonPlaces(a.format, a, b))
    ensures PlusOperands(a, b)
    ensures var c, f, r := a.format, CommonPlaces(a.format, a, b), Plus(a, b);
      WellFormed(c, r.value) && |FracPart(c, r.value)| <= f &&
      SignedScaled(c, r, f) == SignedScaled(c, a, f) + SignedScaled(c, b, f)
  {
    SubOperandsOf(a, b);
    PlusMixedSigns(a, b);
    SubSigned(a, b);
  }

  /** Sub under the receiver's sign, for operands of opposite signs with the
    * receiver the larger in magnitude: the sum of the signed values. */
  lemma SubSigned(a: BigNumber, b: BigNumber)
    requires SameDotConfig(a, b) && Signed(a) && Signed(b) && a.sign != b.sign
    requires CommonPlaces(a.format, a, b) > 0 ||
      (a.format.decimalSeparator !in a.value && a.format.decimalSeparator !in b.value)
    requires Scaled(a.format, b.value, CommonPlaces(a.format, a, b)) <= Scaled(a.format, a.value, CommonPlaces(a.format, a, b))
    ensures SubOperands(a, b)
    ensures var c, f, r := a.format, CommonPlaces(a.format, a, b), SubResult(a, b).(sign := a.sign);
      WellFormed(c, r.value) && |FracPart(c, r.value)| <= f &&
      SignedScaled(c, r, f) == SignedScaled(c, a, f) + SignedScaled(c, b, f)
  {
    var c, f := a.format, CommonPlaces(a.format, a, b);
    SubOperandsOf(a, b);
    var r := SubResult(a, b);
    var x: int, y: int := Scaled(c, a.value, f), Scaled(c, b.value, f);
    assert WellFormed(c, r.value) && |FracPart(c, r.value)| <= f && Scaled(c, r.value, f) == x - y by {
      SubValueIn(a, b);
    }
  }

  /** Finding: with the argument the larger in magnitude and of the other
    * sign, the sum is negative for a positive receiver, yet Plus returns a
    * number with the receiver's sign +1 (1 + -5 is not -4). */
  lemma PlusWrongSign(a: BigNumber, b: BigNumber)
    requires SameDotConfig(a, b) && a.sign == 1 && b.sign == -1
    requires Scaled(a.format, a.value, CommonPlaces(a.format, a, b)) < Scaled(a.format, b.value, CommonPlaces(a.format, a, b))
    ensures PlusOperands(a, b)
    ensures var c, f := a.format, CommonPlaces(a.format, a, b);
      Plus(a, b).sign == 1 && SignedScaled(c, a, f) + SignedScaled(c, b, f) < 0
  {
    SubOperandsOf(a, b);
  }

  /** Minus is the difference of the signed values whenever ComparedTo
    * orders the magnitudes correctly (ComparedToMagnitudes) and no operand
    * ends in a bare separator while neither has a fraction digit. */
  lemma MinusValue(a: BigNumber, b: BigNumber)
    requires SameDotConfig(a, b) && CanonicalText(a.value) && CanonicalText(b.value)
    requires Signed(a) && Signed(b)
    requires var ip1, ip2 := IntPart(a.format, a.value), IntPart(a.format, b.value);
      |ip1| != |ip2| || ip1 == ip2 || |ip1| == 1
    requires CommonPlaces(a.format, a, b) > 0 ||
      (a.format.decimalSeparator !in a.value && a.format.decimalSeparator !in b.value)
    ensures MinusOperands(a, b)
    ensures var c, f, r := a.format, CommonPlaces(a.format, a, b), Minus(a, b);
      WellFormed(c, r.value) && |FracPart(c, r.value)| <= f &&
      SignedScaled(c, r, f) == SignedScaled(c, a, f) - SignedScaled(c, b, f)
  {
    SubOperandsOf(a, b);
    if a.sign == b.sign {
      MinusSameSign(a, b);
    } else {
      AddDifference(a, b);
    }
  }

  /** Minus of operands of one sign: Sub one way or the other, as ComparedTo
    * orders the magnitudes. */
  lemma MinusSameSign(a: BigNumber, b: BigNumber)
    requires SameDotConfig(a, b) && CanonicalText(a.value) && CanonicalText(b.value)
    requires Signed(a) && Signed(b) && a.sign == b.sign
    requires var ip1, ip2 := IntPart(a.format, a.value), IntPart(a.format, b.value);
      |ip1| != |ip2| || ip1 == ip2 || |ip1| == 1
    requires CommonPlaces(a.format, a, b) > 0 ||
      (a.format.decimalSeparator !in a.value && a.format.decimalSeparator !in b.value)
    ensures MinusOperands(a, b)
    ensures var c, f, r := a.format, CommonPlaces(a.format, a, b), Minus(a, b);
      WellFormed(c, r.value) && |FracPart(c, r.value)| <= f &&
      SignedScaled(c, r, f) == SignedScaled(c, a, f) - SignedScaled(c, b, f)
  {
    var c, f := a.format, CommonPlaces(a.format, a, b);
    var x: int, y: int := Scaled(c, a.value, f), Scaled(c, b.value, f);
    var greater := IsGreaterThan(a, b);
    assert greater <==> y < x by {
      ComparedToMagnitudes(a, b);
    }
    if greater {
      SubDifference(a, b);
      assert Minus(a, b) == SubResult(a, b).(sign := a.sign);
    } else {
      SubDifferenceSwapped(a, b);
      assert Minus(a, b) == SubResult(b, a).(sign := -a.sign);
    }
  }

  /** Sub under the receiver's sign, for operands of one sign with the
    * receiver the larger in magnitude: the difference of the signed values. */
  lemma SubDifference(a: BigNumber, b: BigNumber)
    requires SameDotConfig(a, b) && Signed(a) && Signed(b) && a.sign == b.sign
    requires CommonPlaces(a.format, a, b) > 0 ||
      (a.format.decimalSeparator !in a.value && a.format.decimalSeparator !in b.value)
    requires Scaled(a.format, b.value, CommonPlaces(a.format, a, b)) <= Scaled(a.format, a.value, CommonPlaces(a.format, a, b))
    ensures SubOperands(a, b)
    ensures var c, f, r := a.format, CommonPlaces(a.format, a, b), SubResult(a, b).(sign := a.sign);
      WellFormed(c, r.value) && |FracPart(c, r.value)| <= f &&
      SignedScaled(c, r, f) == SignedScaled(c, a, f) - SignedScaled(c, b, f)
  {
    var c, f := a.format, CommonPlaces(a.format, a, b);
    SubValueIn(a, b);
    SameSignDifference(c, a, b, SubResult(a, b), a.sign, f);
  }

  /** A positive result worth the difference of the magnitudes of two
    * operands of one sign, put under sign s, is worth the signed difference
    * when s is their sign, and its opposite when s is the other sign. */
  lemma SameSignDifference(c: Config, a: BigNumber, b: BigNumber, r: BigNumber, s: int, f: nat)
    requires f >= |FracPart(c, a.value)| && f >= |FracPart(c, b.value)| && c.base >= 0
    requires a.sign == b.sign && (s == a.sign || s == -a.sign) && s != 0
    requires Worth(c, r, f, Scaled(c, a.value, f) - Scaled(c, b.value, f))
    ensures var r' := r.(sign := s);
      WellFormed(c, r'.value) && |FracPart(c, r'.value)| <= f &&
      SignedScaled(c, r', f) == if s == a.sign then SignedScaled(c, a, f) - SignedScaled(c, b, f)
        else SignedScaled(c, b, f) - SignedScaled(c, a, f)
  {
  }

  /** Sub of the receiver from the argument under the other sign, for
    * operands of one sign with the argument the larger in magnitude: the
    * difference of the signed values. */
  lemma SubDifferenceSwapped(a: BigNumber, b: BigNumber)
    requires SameDotConfig(a, b) && Signed(a) && Signed(b) && a.sign == b.sign
    requires CommonPlaces(a.format, a, b) > 0 ||
      (a.format.decimalSeparator !in a.value && a.format.decimalSeparator !in b.value)
    requires Scaled(a.format, a.value, CommonPlaces(a.format, a, b)) <= Scaled(a.format, b.value, CommonPlaces(a.format, a, b))
    ensures SubOperands(b, a)
    ensures var c, f, r := a.format, CommonPlaces(a.format, a, b), SubResult(b, a).(sign := -a.sign);
      WellFormed(c, r.value) && |FracPart(c, r.value)| <= f &&
      SignedScaled(c, r, f) == SignedScaled(c, a, f) - SignedScaled(c, b, f)
  {
    var c, f := a.format, CommonPlaces(a.format, a, b);
    assert CommonPlaces(c, b, a) == f;
    SubValueIn(b, a);
    SameSignDifference(c, b, a, SubResult(b, a), -a.sign, f);
  }

  /** add under the receiver's sign, for operands of opposite signs: the
    * difference of the signed values. */
  lemma AddDifference(a: BigNumber, b: BigNumber)
    requires SameDotConfig(a, b) && Signed(a) && Signed(b) && a.sign != b.sign
    ensures LoopConfig(a.format)
    ensures var c, f, r := a.format, CommonPlaces(a.format, a, b), AddResult(a, b).(sign := a.sign);
      WellFormed(c, r.value) && |FracPart(c, r.value)| <= f &&
      SignedScaled(c, r, f) == SignedScaled(c, a, f) - SignedScaled(c, b, f)
  {
    var c, f := a.format, CommonPlaces(a.format, a, b);
    var r := AddResult(a, b);
    var x: int, y: int := Scaled(c, a.value, f), Scaled(c, b.value, f);
    assert LoopConfig(c) && WellFormed(c, r.value) && |FracPart(c, r.value)| <= f && Scaled(c, r.value, f) == x + y by {
      AddValueIn(a, b);
    }
  }

  // ---------------------------------------------------------------------
  // Sub's clean-up, corrected

  /** Sub as evidently intended: the fraction is trimmed only when there are
    * fraction places, so that a bare separator does not cost a "0". */
  function SubFixed(a: BigNumber, b: BigNumber): BigNumber
    requires SubOperands(a, b)
  {
    var places := SubPlaces(a, b);
    NewBigNumber(SubCleanUp(DifferenceDigits(a, b), places, places > 0, a.format.decimalSeparator))
  }

  /** The corrected Sub yields the difference whenever the receiver is at
    * least the argument, bare separators included. */
  lemma SubFixedValue(a: BigNumber, b: BigNumber)
    requires SameDotConfig(a, b)
    requires Scaled(a.format, b.value, CommonPlaces(a.format, a, b)) <= Scaled(a.format, a.value, CommonPlaces(a.format, a, b))
    ensures SubOperands(a, b)
    ensures var c, f, r := a.format, CommonPlaces(a.format, a, b), SubFixed(a, b);
      r.sign == 1 && WellFormed(c, r.value) && |FracPart(c, r.value)| <= f &&
      Scaled(c, r.value, f) == Scaled(c, a.value, f) - Scaled(c, b.value, f)
  {
    var c := a.format;
    var f := CommonPlaces(c, a, b);
    DifferenceDigitsValue(a, b);
    var digits := DifferenceDigits(a, b);
    assert SubPlaces(a, b) == f;
    SubCleanUpValue(c, digits, f, f > 0);
    var u := SubCleanUp(digits, f, f > 0, c.decimalSeparator);
    NewBigNumberOfText(c, u);
    ScaledSame(c, SubFixed(a, b).value, u, f);
  }

  /** Finding: "10." minus "0" has no fraction places, yet Sub trims the
    * trailing "0" of "10" because a separator was written: the result is 1. */
  lemma SubBareSeparator(c: Config)
    requires DotConfig(c) && Starts012(c)
    ensures var a, b := BigNumber("10.", c, 1), BigNumber("0", c, 1);
      SubOperands(a, b) && SubResult(a, b).value == "1" && SubFixed(a, b).value == "10" &&
      Scaled(c, a.value, 0) == c.base && Scaled(c, b.value, 0) == 0
  {
    var a, b := BigNumber("10.", c, 1), BigNumber("0", c, 1);
    BareSeparatorOperands(c);
    BareSeparatorDigits(c);
    CleanUpOfTen(a, b);
  }

  /** Operands whose borrowed differences are "10" with no fraction places,
    * the receiver holding a separator: Sub cleans up to "1", the corrected
    * Sub to "10". */
  lemma CleanUpOfTen(a: BigNumber, b: BigNumber)
    requires SubOperands(a, b) && DifferenceDigits(a, b) == "10" && SubPlaces(a, b) == 0
    requires a.format.decimalSeparator == '.' && '.' in a.value
    ensures SubResult(a, b).value == "1" && SubFixed(a, b).value == "10"
  {
    BareSeparatorCleanUp();
    OneAndTenCanonical();
  }

  /** "1" and "10" read as numbers keep their text. */
  lemma OneAndTenCanonical()
    ensures NewBigNumber("1").value == "1" && NewBigNumber("10").value == "10"
  {
    assert CanonicalDigits("1") == "1";
    assert CanonicalDigits("10") == "10";
  }

  /** The clean-up of "10" with no places: "1" when told of a separator,
    * "10" when not. */
  lemma BareSeparatorCleanUp()
    ensures SubCleanUp("10", 0, true, '.') == "1"
    ensures SubCleanUp("10", 0, false, '.') == "10"
  {
    assert SubCleanUp("10", 0, true, '.') == "1";
  }

  /** The borrow loop on "10." and "0" writes "10", with no fraction places. */
  lemma BareSeparatorDigits(c: Config)
    requires DotConfig(c) && Starts012(c)
    ensures var a, b := BigNumber("10.", c, 1), BigNumber("0", c, 1);
      SubOperands(a, b) && DifferenceDigits(a, b) == "10" && SubPlaces(a, b) == 0 &&
      c.decimalSeparator in a.value
  {
    var a, b := BigNumber("10.", c, 1), BigNumber("0", c, 1);
    BareSeparatorOperands(c);
    DifferenceDigitsValue(a, b);
    var digits := DifferenceDigits(a, b);
    assert |digits| == 2 by {
      DifferenceDigitsLength(a, b);
      assert PaddedDigits(c, a.value, 0) == "10" && PaddedDigits(c, b.value, 0) == "0";
    }
    assert digits == "10" by {
      TenDigits(c);
      SameValueSameDigits(c.alphabet, c.base, digits, "10");
    }
    assert a.value[2] == c.decimalSeparator;
  }

  /** "10." and "0" are well formed, worth base and 0, with no fraction. */
  lemma BareSeparatorOperands(c: Config)
    requires DotConfig(c) && Starts012(c)
    ensures var a, b := BigNumber("10.", c, 1), BigNumber("0", c, 1);
      SameDotConfig(a, b) && CommonPlaces(c, a, b) == 0 &&
      IntPart(c, a.value) == "10" && FracPart(c, a.value) == [] &&
      IntPart(c, b.value) == "0" && FracPart(c, b.value) == [] &&
      Scaled(c, a.value, 0) == c.base && Scaled(c, b.value, 0) == 0
  {
    BareSeparatorSplit();
    TenDigits(c);
    NoFractionValue(c, "10.", "10");
    NoFractionValue(c, "0", "0");
  }

  /** "10." splits into "10" and an empty fraction, "0" into "0" and none. */
  lemma BareSeparatorSplit()
    ensures SplitDecimal("10.", '.') == ("10", []) && SplitDecimal("0", '.') == ("0", [])
    ensures "10." == "10" + ['.']
  {
    assert "10."[..2] == "10" && "10."[3..] == [];
  }

  /** A text that splits into digits and no fraction is well formed and
    * worth its digits. */
  lemma NoFractionValue(c: Config, v: string, ip: string)
    requires DotConfig(c) && |ip| >= 1 && IsDigits(c.alphabet, c.base, ip)
    requires SplitDecimal(v, '.') == (ip, []) && (v == ip || v == ip + ['.'])
    ensures WellFormed(c, v) && IntPart(c, v) == ip && FracPart(c, v) == []
    ensures Scaled(c, v, 0) == Val(c.alphabet, c.base, ip)
  {
    assert ip + ['.'] == ip + [c.decimalSeparator] + [];
    assert DigitsOf(c, v) == ip;
    ScaledNoPad(c, v, 0);
  }

  /** "10" is the two-symbol digit string worth base. */
  lemma TenDigits(c: Config)
    requires Starts012(c)
    ensures IsDigits(c.alphabet, c.base, "10") && Val(c.alphabet, c.base, "10") == c.base
    ensures Val(c.alphabet, c.base, "0") == 0
  {
    SmallDigits(c);
    DigitOfSymbol(c.alphabet, c.base, 0);
    assert c.alphabet[..c.base][0] == '0' && c.alphabet[..c.base][1] == '1';
    assert "10"[..1] == "1" && "1"[..0] == [];
  }

  // ---------------------------------------------------------------------
  // Plus and Minus, corrected

  /** Both orders can go through the borrow loop. */
  predicate BothOrders(a: BigNumber, b: BigNumber)
  {
    SubOperands(a, b) && SubOperands(b, a)
  }

  /** Plus as evidently intended: with signs of both kinds the larger
    * magnitude (by the corrected comparison) loses the smaller and gives its
    * sign, and the corrected Sub is used. */
  function PlusFixed(a: BigNumber, b: BigNumber): BigNumber
    requires BothOrders(a, b)
  {
    if a.sign == b.sign then AddResult(a, b).(sign := a.sign)
    else if CompareMagnitudes(a, b) >= 0 then SubFixed(a, b).(sign := a.sign)
    else SubFixed(b, a).(sign := b.sign)
  }

  /** Minus as evidently intended, on the corrected comparison and Sub. */
  function MinusFixed(a: BigNumber, b: BigNumber): BigNumber
    requires BothOrders(a, b)
  {
    if a.sign == b.sign then
      if CompareMagnitudes(a, b) > 0 then SubFixed(a, b).(sign := a.sign)
      else SubFixed(b, a).(sign := -a.sign)
    else AddResult(a, b).(sign := a.sign)
  }

  /** The corrected Plus adds signed values, for any canonical well-formed
    * operands of one configuration. */
  lemma PlusFixedValue(a: BigNumber, b: BigNumber)
    requires SameDotConfig(a, b) && CanonicalText(a.value) && CanonicalText(b.value)
    requires Signed(a) && Signed(b)
    ensures BothOrders(a, b)
    ensures var c, f, r := a.format, CommonPlaces(a.format, a, b), PlusFixed(a, b);
      WellFormed(c, r.value) && |FracPart(c, r.value)| <= f &&
      SignedScaled(c, r, f) == SignedScaled(c, a, f) + SignedScaled(c, b, f)
  {
    SubOperandsOf(a, b);
    if a.sign == b.sign {
      AddSum(a, b);
    } else {
      CompareMagnitudesOrder(a, b);
      if CompareMagnitudes(a, b) >= 0 {
        SubFixedSum(a, b);
      } else {
        SubFixedSumSwapped(a, b);
      }
    }
  }

  /** The corrected Minus subtracts signed values, for any canonical
    * well-formed operands of one configuration. */
  lemma MinusFixedValue(a: BigNumber, b: BigNumber)
    requires SameDotConfig(a, b) && CanonicalText(a.value) && CanonicalText(b.value)
    requires Signed(a) && Signed(b)
    ensures BothOrders(a, b)
    ensures var c, f, r := a.format, CommonPlaces(a.format, a, b), MinusFixed(a, b);
      WellFormed(c, r.value) && |FracPart(c, r.value)| <= f &&
      SignedScaled(c, r, f) == SignedScaled(c, a, f) - SignedScaled(c, b, f)
  {
    SubOperandsOf(a, b);
    if a.sign == b.sign {
      CompareMagnitudesOrder(a, b);
      if CompareMagnitudes(a, b) > 0 {
        SubFixedDifference(a, b);
      } else {
        SubFixedDifferenceSwapped(a, b);
      }
    } else {
      AddDifference(a, b);
    }
  }

  /** add under the common sign: the sum of the signed values. */
  lemma AddSum(a: BigNumber, b: BigNumber)
    requires SameDotConfig(a, b) && a.sign == b.sign
    ensures LoopConfig(a.format)
    ensures var c, f, r := a.format, CommonPlaces(a.format, a, b), AddResult(a, b).(sign := a.sign);
      WellFormed(c, r.value) && |FracPart(c, r.value)| == f &&
      SignedScaled(c, r, f) == SignedScaled(c, a, f) + SignedScaled(c, b, f)
  {
    var c, f := a.format, CommonPlaces(a.format, a, b);
    var r := AddResult(a, b);
    var x: int, y: int := Scaled(c, a.value, f), Scaled(c, b.value, f);
    assert LoopConfig(c) && WellFormed(c, r.value) && |FracPart(c, r.value)| == f && Scaled(c, r.value, f) == x + y by {
      AddValueIn(a, b);
    }
    var rs := r.(sign := a.sign);
    assert rs.value == r.value;
    if a.sign < 0 {
      assert SignedScaled(c, rs, f) == -(x + y);
    } else {
      assert SignedScaled(c, rs, f) == x + y;
    }
  }

  /** The corrected Sub under the receiver's sign, for operands of opposite
    * signs with the receiver at least as large in magnitude: the sum. */
  lemma SubFixedSum(a: BigNumber, b: BigNumber)
    requires SameDotConfig(a, b) && Signed(a) && Signed(b) && a.sign != b.sign
    requires Scaled(a.format, b.value, CommonPlaces(a.format, a, b)) <= Scaled(a.format, a.value, CommonPlaces(a.format, a, b))
    ensures SubOperands(a, b)
    ensures var c, f, r := a.format, CommonPlaces(a.format, a, b), SubFixed(a, b).(sign := a.sign);
      WellFormed(c, r.value) && |FracPart(c, r.value)| <= f &&
      SignedScaled(c, r, f) == SignedScaled(c, a, f) + SignedScaled(c, b, f)
  {
    var c, f := a.format, CommonPlaces(a.format, a, b);
    SubOperandsOf(a, b);
    var r := SubFixed(a, b);
    var x: int, y: int := Scaled(c, a.value, f), Scaled(c, b.value, f);
    assert WellFormed(c, r.value) && |FracPart(c, r.value)| <= f && Scaled(c, r.value, f) == x - y by {
      SubFixedValue(a, b);
    }
  }

  /** The corrected Sub of the receiver from the argument under the
    * argument's sign, for operands of opposite signs with the argument the
    * larger in magnitude: the sum. */
  lemma SubFixedSumSwapped(a: BigNumber, b: BigNumber)
    requires SameDotConfig(a, b) && Signed(a) && Signed(b) && a.sign != b.sign
    requires Scaled(a.format, a.value, CommonPlaces(a.format, a, b)) <= Scaled(a.format, b.value, CommonPlaces(a.format, a, b))
    ensures SubOperands(b, a)
    ensures var c, f, r := a.format, CommonPlaces(a.format, a, b), SubFixed(b, a).(sign := b.sign);
      WellFormed(c, r.value) && |FracPart(c, r.value)| <= f &&
      SignedScaled(c, r, f) == SignedScaled(c, a, f) + SignedScaled(c, b, f)
  {
    var c, f := a.format, CommonPlaces(a.format, a, b);
    assert CommonPlaces(c, b, a) == f;
    SubOperandsOf(a, b);
    var r := SubFixed(b, a);
    var x: int, y: int := Scaled(c, a.value, f), Scaled(c, b.value, f);
    assert WellFormed(c, r.value) && |FracPart(c, r.value)| <= f && Scaled(c, r.value, f) == y - x by {
      SubFixedValue(b, a);
    }
  }

  /** The corrected Sub under the common sign, receiver at least as large in
    * magnitude: the difference of the signed values. */
  lemma SubFixedDifference(a: BigNumber, b: BigNumber)
    requires SameDotConfig(a, b) && Signed(a) && Signed(b) && a.sign == b.sign
    requires Scaled(a.format, b.value, CommonPlaces(a.format, a, b)) <= Scaled(a.format, a.value, CommonPlaces(a.format, a, b))
    ensures SubOperands(a, b)
    ensures var c, f, r := a.format, CommonPlaces(a.format, a, b), SubFixed(a, b).(sign := a.sign);
      WellFormed(c, r.value) && |FracPart(c, r.value)| <= f &&
      SignedScaled(c, r, f) == SignedScaled(c, a, f) - SignedScaled(c, b, f)
  {
    var c, f := a.format, CommonPlaces(a.format, a, b);
    SubOperandsOf(a, b);
    var r := SubFixed(a, b);
    var x: int, y: int := Scaled(c, a.value, f), Scaled(c, b.value, f);
    assert WellFormed(c, r.value) && |FracPart(c, r.value)| <= f && Scaled(c, r.value, f) == x - y by {
      SubFixedValue(a, b);
    }
  }

  /** The corrected Sub of the receiver from the argument under the other
    * sign, argument at least as large in magnitude: the difference. */
  lemma SubFixedDifferenceSwapped(a: BigNumber, b: BigNumber)
    requires SameDotConfig(a, b) && Signed(a) && Signed(b) && a.sign == b.sign
    requires Scaled(a.format, a.value, CommonPlaces(a.format, a, b)) <= Scaled(a.format, b.value, CommonPlaces(a.format, a, b))
    ensures SubOperands(b, a)
    ensures var c, f, r := a.format, CommonPlaces(a.format, a, b), SubFixed(b, a).(sign := -a.sign);
      WellFormed(c, r.value) && |FracPart(c, r.value)| <= f &&
      SignedScaled(c, r, f) == SignedScaled(c, a, f) - SignedScaled(c, b, f)
  {
    var c, f := a.format, CommonPlaces(a.format, a, b);
    assert CommonPlaces(c, b, a) == f;
    SubOperandsOf(a, b);
    var r := SubFixed(b, a);
    var x: int, y: int := Scaled(c, a.value, f), Scaled(c, b.value, f);
    assert WellFormed(c, r.value) && |FracPart(c, r.value)| <= f && Scaled(c, r.value, f) == y - x by {
      SubFixedValue(b, a);
    }
  }
}
