/** ComparedTo of bigNumber.go read against the values of its operands:
  * where it orders magnitudes correctly, where it does not, and the
  * comparison it evidently intends, proved to order signed values. */
module BigCompare {
  import opened GoStrings
  import opened BigDigits
  import opened BigNumbers
  import opened BigAddSub
  import opened BigValues

  /** -1, 0 or 1 as x is negative, zero or positive. */
  function Sign(x: int): int
  {
    if x > 0 then 1 else if x < 0 then -1 else 0
  }

  // ---------------------------------------------------------------------
  // Digits and positions

  /** A digit symbol stands in the alphabet at its own digit value. */
  lemma SymbolAtDigit(alphabet: string, base: nat, ch: char)
    requires DistinctDigits(alphabet, base) && ch in alphabet[..base]
    ensures Digit(alphabet, ch) < base && alphabet[Digit(alphabet, ch)] == ch
  {
    var k :| 0 <= k < base && alphabet[..base][k] == ch;
    DigitOfSymbol(alphabet, base, k);
  }

  /** Different digit symbols have different values. */
  lemma DigitsDiffer(alphabet: string, base: nat, x: char, y: char)
    requires DistinctDigits(alphabet, base)
    requires x in alphabet[..base] && y in alphabet[..base] && x != y
    ensures Digit(alphabet, x) != Digit(alphabet, y)
  {
    SymbolAtDigit(alphabet, base, x);
    SymbolAtDigit(alphabet, base, y);
  }

  /** A digit symbol other than "0" is worth at least 1. */
  lemma NonZeroDigit(c: Config, ch: char)
    requires ValidConfig(c) && ch in c.alphabet[..c.base] && ch != '0'
    ensures Digit(c.alphabet, ch) >= 1
  {
    SymbolAtDigit(c.alphabet, c.base, ch);
  }

  /** Of two numbers hi * p + lo with lo below p, the larger high part wins. */
  lemma HighDecides(hi1: nat, lo1: nat, hi2: nat, lo2: nat, p: nat)
    requires hi1 > hi2 && lo2 < p
    ensures hi1 * p + lo1 > hi2 * p + lo2
  {
    MulLe(hi2 + 1, hi1, p);
  }

  /** Of two digit strings of one length, the first differing symbol decides
    * which is worth more. */
  lemma LexOrder(alphabet: string, base: nat, s: string, t: string, k: nat)
    requires IsDigits(alphabet, base, s) && IsDigits(alphabet, base, t) && |s| == |t|
    requires k < |s| && s[..k] == t[..k] && Digit(alphabet, s[k]) > Digit(alphabet, t[k])
    ensures Val(alphabet, base, s) > Val(alphabet, base, t)
  {
    var j := k + 1;
    var e := |s| - j;
    PrefixHigher(alphabet, base, s, t, k);
    SplitAt(alphabet, base, s, j, e);
    SplitAt(alphabet, base, t, j, e);
    HighDecides(Val(alphabet, base, s[..j]), Val(alphabet, base, s[j..]),
      Val(alphabet, base, t[..j]), Val(alphabet, base, t[j..]), Pow(base, e));
  }

  /** Up to a first difference, the larger digit makes the larger prefix. */
  lemma PrefixHigher(alphabet: string, base: nat, s: string, t: string, k: nat)
    requires k < |s| && k < |t| && s[..k] == t[..k] && Digit(alphabet, s[k]) > Digit(alphabet, t[k])
    ensures Val(alphabet, base, s[..k + 1]) > Val(alphabet, base, t[..k + 1])
  {
    var u, u' := s[..k + 1], t[..k + 1];
    assert u[..k] == s[..k] && u'[..k] == t[..k];
    assert u[k] == s[k] && u'[k] == t[k];
    var v := Val(alphabet, base, s[..k]);
    assert Val(alphabet, base, u) == v * base + Digit(alphabet, s[k]);
    assert Val(alphabet, base, u') == v * base + Digit(alphabet, t[k]);
  }

  /** A digit string cut at j: the head counts base^(|s| - j) times, and the
    * tail is worth less than that. */
  lemma SplitAt(alphabet: string, base: nat, s: string, j: nat, e: nat)
    requires IsDigits(alphabet, base, s) && j + e == |s|
    ensures Val(alphabet, base, s) == Val(alphabet, base, s[..j]) * Pow(base, e) + Val(alphabet, base, s[j..])
    ensures Val(alphabet, base, s[j..]) < Pow(base, e)
  {
    var r := s[j..];
    assert s == s[..j] + r;
    ValConcat(alphabet, base, s[..j], r);
    assert IsDigits(alphabet, base, r) by {
      forall i | 0 <= i < |r| ensures r[i] in alphabet[..base] {
        assert r[i] == s[j + i];
      }
    }
    ValBound(alphabet, base, r);
  }

  /** A digit string led by a symbol other than "0" is worth more than any
    * shorter digit string. */
  lemma LongerIsLarger(c: Config, s: string, t: string)
    requires ValidConfig(c) && IsDigits(c.alphabet, c.base, s) && IsDigits(c.alphabet, c.base, t)
    requires |s| > |t| && s[0] != '0'
    ensures Val(c.alphabet, c.base, s) > Val(c.alphabet, c.base, t)
  {
    var rest := s[1..];
    var d, p, q := Digit(c.alphabet, s[0]), Pow(c.base, |rest|), Pow(c.base, |t|);
    assert Val(c.alphabet, c.base, s) == d * p + Val(c.alphabet, c.base, rest) by {
      assert s == [s[0]] + rest;
      ValPrepend(c.alphabet, c.base, s[0], rest);
    }
    assert d >= 1 by { NonZeroDigit(c, s[0]); }
    assert q <= p by { PowMono(c.base, |t|, |rest|); }
    assert Val(c.alphabet, c.base, t) < q by { ValBound(c.alphabet, c.base, t); }
    LeadingTermBound(Val(c.alphabet, c.base, s), d, p, Val(c.alphabet, c.base, rest), q, Val(c.alphabet, c.base, t));
  }

  /** A number with a leading term of at least p is above anything below q <= p. */
  lemma LeadingTermBound(x: nat, d: nat, p: nat, r: nat, q: nat, y: nat)
    requires x == d * p + r && d >= 1 && q <= p && y < q
    ensures x > y
  {
    MulLe(1, d, p);
  }

  /** The integer part of a canonical well-formed text starts with "0" only
    * when it is that single symbol. */
  lemma CanonicalIntPart(c: Config, v: string)
    requires DotConfig(c) && WellFormed(c, v) && CanonicalText(v)
    ensures var ip := IntPart(c, v); ip[0] == '0' ==> |ip| == 1
  {
    var ip := IntPart(c, v);
    WellFormedDigits(c, v);
    SplitDigits(c, ip, FracPart(c, v));
    if |ip| > 1 {
      assert v[1] == ip[1] && ip[1] in c.alphabet[..c.base];
    }
  }

  // ---------------------------------------------------------------------
  // Scaled values split into integer part and fraction

  /** The fraction of `v` padded with "0" to f symbols. */
  function PaddedFraction(c: Config, v: string, f: nat): string
    requires f >= |FracPart(c, v)|
  {
    FracPart(c, v) + Repeat('0', f - |FracPart(c, v)|)
  }

  /** A value scaled to f is its integer part times base^f plus its padded
    * fraction, which is a digit string of f symbols worth less than base^f. */
  lemma ScaledSplit(c: Config, v: string, f: nat)
    requires WellFormed(c, v) && f >= |FracPart(c, v)|
    ensures var ip, fr := IntPart(c, v), PaddedFraction(c, v, f);
      |fr| == f && IsDigits(c.alphabet, c.base, fr) &&
      Val(c.alphabet, c.base, fr) < Pow(c.base, f) &&
      Scaled(c, v, f) == Val(c.alphabet, c.base, ip) * Pow(c.base, f) + Val(c.alphabet, c.base, fr)
  {
    var ip, fp, fr := IntPart(c, v), FracPart(c, v), PaddedFraction(c, v, f);
    PaddedDigitsValue(c, v, f);
    assert PaddedDigits(c, v, f) == ip + fr;
    ValConcat(c.alphabet, c.base, ip, fr);
    assert IsDigits(c.alphabet, c.base, fr) by {
      WellFormedDigits(c, v);
      SplitDigits(c, ip, fp);
      ZerosAreDigits(c, f - |fp|);
      ConcatDigits(c.alphabet, c.base, fp, Repeat('0', f - |fp|));
    }
    ValBound(c.alphabet, c.base, fr);
  }

  /** The larger integer part makes the larger scaled value. */
  lemma IntPartsDecide(c: Config, v: string, w: string, f: nat)
    requires WellFormed(c, v) && WellFormed(c, w)
    requires f >= |FracPart(c, v)| && f >= |FracPart(c, w)|
    requires Val(c.alphabet, c.base, IntPart(c, v)) > Val(c.alphabet, c.base, IntPart(c, w))
    ensures Scaled(c, v, f) > Scaled(c, w, f)
  {
    ScaledSplit(c, v, f);
    ScaledSplit(c, w, f);
    HighDecides(Val(c.alphabet, c.base, IntPart(c, v)), Val(c.alphabet, c.base, PaddedFraction(c, v, f)),
      Val(c.alphabet, c.base, IntPart(c, w)), Val(c.alphabet, c.base, PaddedFraction(c, w, f)), Pow(c.base, f));
  }

  /** A canonical text with the longer integer part has the larger value. */
  lemma LongerIntPart(c: Config, v: string, w: string, f: nat)
    requires DotConfig(c) && WellFormed(c, v) && WellFormed(c, w) && CanonicalText(v)
    requires f >= |FracPart(c, v)| && f >= |FracPart(c, w)|
    requires |IntPart(c, v)| > |IntPart(c, w)|
    ensures Scaled(c, v, f) > Scaled(c, w, f)
  {
    var ip1, ip2 := IntPart(c, v), IntPart(c, w);
    CanonicalIntPart(c, v);
    WellFormedDigits(c, v);
    WellFormedDigits(c, w);
    SplitDigits(c, ip1, FracPart(c, v));
    SplitDigits(c, ip2, FracPart(c, w));
    LongerIsLarger(c, ip1, ip2);
    IntPartsDecide(c, v, w, f);
  }

  /** Integer parts of one length that differ: the first differing digit
    * gives the order of the values. */
  lemma FirstIntDifference(c: Config, v: string, w: string, f: nat)
    requires DotConfig(c) && WellFormed(c, v) && WellFormed(c, w)
    requires f >= |FracPart(c, v)| && f >= |FracPart(c, w)|
    requires |IntPart(c, v)| == |IntPart(c, w)| && IntPart(c, v) != IntPart(c, w)
    ensures var ip1, ip2 := IntPart(c, v), IntPart(c, w);
      var k := FirstDifference(ip1, ip2);
      Sign(Digit(c.alphabet, ip1[k]) - Digit(c.alphabet, ip2[k])) ==
      Sign(Scaled(c, v, f) - Scaled(c, w, f))
  {
    var ip1, ip2 := IntPart(c, v), IntPart(c, w);
    var k := FirstDifference(ip1, ip2);
    var d1, d2 := Digit(c.alphabet, ip1[k]), Digit(c.alphabet, ip2[k]);
    assert IsDigits(c.alphabet, c.base, ip1) && IsDigits(c.alphabet, c.base, ip2);
    assert d1 != d2 by {
      DigitsDiffer(c.alphabet, c.base, ip1[k], ip2[k]);
    }
    if d1 > d2 {
      assert Scaled(c, v, f) > Scaled(c, w, f) by {
        LexOrder(c.alphabet, c.base, ip1, ip2, k);
        IntPartsDecide(c, v, w, f);
      }
    } else {
      assert Scaled(c, w, f) > Scaled(c, v, f) by {
        LexOrder(c.alphabet, c.base, ip2, ip1, k);
        IntPartsDecide(c, w, v, f);
      }
    }
  }

  // ---------------------------------------------------------------------
  // The fraction loop

  /** Positions j to k where both strings agree are passed over. */
  lemma {:induction false} CompareFractionsSkip(alphabet: string, s: string, t: string, j: nat, k: nat)
    requires |s| == |t| && j <= k <= |s|
    requires forall i :: j <= i < k ==> s[i] == t[i]
    ensures CompareFractions(alphabet, alphabet, s, t, j) == CompareFractions(alphabet, alphabet, s, t, k)
    decreases k - j
  {
    if j < k {
      CompareFractionsSkip(alphabet, s, t, j + 1, k);
    }
  }

  /** Equal prefixes up to k are passed over. */
  lemma CompareFractionsUpTo(alphabet: string, s: string, t: string, k: nat)
    requires |s| == |t| && k <= |s| && s[..k] == t[..k]
    ensures CompareFractions(alphabet, alphabet, s, t, 0) == CompareFractions(alphabet, alphabet, s, t, k)
  {
    assert forall i :: 0 <= i < k ==> s[i] == s[..k][i] && t[i] == t[..k][i];
    CompareFractionsSkip(alphabet, s, t, 0, k);
  }

  /** At a position whose digits differ, the loop returns their difference. */
  lemma CompareFractionsAt(alphabet: string, s: string, t: string, k: nat)
    requires |s| == |t| && k < |s| && Digit(alphabet, s[k]) != Digit(alphabet, t[k])
    ensures CompareFractions(alphabet, alphabet, s, t, k) == Digit(alphabet, s[k]) - Digit(alphabet, t[k])
  {
  }

  /** On two digit strings of one length the fraction loop returns a number
    * with the sign of the difference of their values. */
  lemma CompareFractionsOrder(alphabet: string, base: nat, s: string, t: string)
    requires DistinctDigits(alphabet, base)
    requires IsDigits(alphabet, base, s) && IsDigits(alphabet, base, t) && |s| == |t|
    ensures Sign(CompareFractions(alphabet, alphabet, s, t, 0)) ==
      Sign(Val(alphabet, base, s) - Val(alphabet, base, t))
  {
    var cmp := CompareFractions(alphabet, alphabet, s, t, 0);
    var diff := Val(alphabet, base, s) - Val(alphabet, base, t);
    if s == t {
      assert cmp == 0 by {
        CompareFractionsSkip(alphabet, s, t, 0, |s|);
      }
    } else {
      var k := FirstDifference(s, t);
      var d1, d2 := Digit(alphabet, s[k]), Digit(alphabet, t[k]);
      assert d1 != d2 by {
        DigitsDiffer(alphabet, base, s[k], t[k]);
      }
      assert cmp == d1 - d2 by {
        CompareFractionsUpTo(alphabet, s, t, k);
        CompareFractionsAt(alphabet, s, t, k);
      }
      if d1 > d2 {
        assert diff > 0 by {
          LexOrder(alphabet, base, s, t, k);
        }
      } else {
        assert diff < 0 by {
          LexOrder(alphabet, base, t, s, k);
        }
      }
    }
  }

  /** Reading a missing fraction symbol as 0 is padding the shorter fraction
    * with "0" to the length of the longer. */
  lemma {:induction false} CompareFractionsPadded(c: Config, f1: string, f2: string, k: nat)
    requires ValidConfig(c)
    ensures var m := Max(|f1|, |f2|);
      CompareFractions(c.alphabet, c.alphabet, f1, f2, k) ==
      CompareFractions(c.alphabet, c.alphabet, f1 + Repeat('0', m - |f1|), f2 + Repeat('0', m - |f2|), k)
    decreases Max(|f1|, |f2|) - k
  {
    var m := Max(|f1|, |f2|);
    var g1, g2 := f1 + Repeat('0', m - |f1|), f2 + Repeat('0', m - |f2|);
    if k < m {
      ZerosAreDigits(c, m - |f1|);
      ZerosAreDigits(c, m - |f2|);
      assert Digit(c.alphabet, g1[k]) == if k < |f1| then Digit(c.alphabet, f1[k]) else 0;
      assert Digit(c.alphabet, g2[k]) == if k < |f2| then Digit(c.alphabet, f2[k]) else 0;
      CompareFractionsPadded(c, f1, f2, k + 1);
    }
  }

  /** Equal integer parts: the fraction loop orders the values. */
  lemma SameIntPart(c: Config, v: string, w: string)
    requires ValidConfig(c) && WellFormed(c, v) && WellFormed(c, w)
    requires IntPart(c, v) == IntPart(c, w)
    ensures var f := Max(|FracPart(c, v)|, |FracPart(c, w)|);
      Sign(CompareFractions(c.alphabet, c.alphabet, FracPart(c, v), FracPart(c, w), 0)) ==
      Sign(Scaled(c, v, f) - Scaled(c, w, f))
  {
    var f := Max(|FracPart(c, v)|, |FracPart(c, w)|);
    CompareFractionsPadded(c, FracPart(c, v), FracPart(c, w), 0);
    ScaledSplit(c, v, f);
    ScaledSplit(c, w, f);
    CompareFractionsOrder(c.alphabet, c.base, PaddedFraction(c, v, f), PaddedFraction(c, w, f));
  }

  // ---------------------------------------------------------------------
  // ComparedTo as written, with its loops

  /** ComparedTo with the two loops of the source: the first scans
    * equal-length integer parts for the first differing symbol, the second
    * scans the fractions. */
  method Compare(a: BigNumber, b: BigNumber) returns (r: int)
    ensures r == ComparedTo(a, b)
  {
    if a.sign != b.sign {
      if a.sign > b.sign {
        return a.sign;
      }
      return b.sign;
    }
    var (ip1, fp1) := SplitDecimal(a.value, a.format.decimalSeparator);
    var (ip2, fp2) := SplitDecimal(b.value, b.format.decimalSeparator);
    if ip1 != ip2 {
      if |ip1| != |ip2| {
        return |ip1| - |ip2|;
      }
      var i := FirstDifferenceLoop(ip1, ip2);
      return ToInteger(a.format.alphabet, ip1) - ToInteger(b.format.alphabet, [ip2[i]]);
    }
    r := CompareFractionsLoop(a.format.alphabet, b.format.alphabet, fp1, fp2);
  }

  /** The integer loop of ComparedTo: the first position where two different
    * strings of one length differ (one exists, so the loop bound is never
    * the exit). */
  method FirstDifferenceLoop(s: string, t: string) returns (i: nat)
    requires |s| == |t| && s != t
    ensures i == FirstDifference(s, t)
  {
    ghost var k := FirstDifference(s, t);
    i := 0;
    while s[i] == t[i]
      invariant 0 <= i <= k && s[..i] == t[..i]
      decreases k - i
    {
      assert s[..i + 1] == s[..i] + [s[i]] && t[..i + 1] == t[..i] + [t[i]];
      i := i + 1;
    }
    FirstDifferenceAt(s, t, i);
  }

  /** The fraction loop of ComparedTo: a missing symbol reads as 0 and the
    * first difference of digit values is returned, else 0. */
  method CompareFractionsLoop(alphabet1: string, alphabet2: string, f1: string, f2: string) returns (r: int)
    ensures r == CompareFractions(alphabet1, alphabet2, f1, f2, 0)
  {
    var m := Max(|f1|, |f2|);
    var i := 0;
    while i < m
      invariant 0 <= i <= m
      invariant CompareFractions(alphabet1, alphabet2, f1, f2, i) ==
        CompareFractions(alphabet1, alphabet2, f1, f2, 0)
    {
      var d1 := if i < |f1| then Digit(alphabet1, f1[i]) else 0;
      var d2 := if i < |f2| then Digit(alphabet2, f2[i]) else 0;
      if d1 != d2 {
        return d1 - d2;
      }
      i := i + 1;
    }
    return 0;
  }

  /** A first differing position is the one FirstDifference finds. */
  lemma FirstDifferenceAt(s: string, t: string, i: nat)
    requires |s| == |t| && i < |s| && s[..i] == t[..i] && s[i] != t[i]
    ensures FirstDifference(s, t) == i
  {
    var k := FirstDifference(s, t);
    assert forall j :: 0 <= j < i ==> s[j] == t[j] by {
      forall j | 0 <= j < i ensures s[j] == t[j] {
        assert s[..i][j] == t[..i][j];
      }
    }
    assert forall j :: 0 <= j < k ==> s[j] == t[j] by {
      forall j | 0 <= j < k ensures s[j] == t[j] {
        assert s[..k][j] == t[..k][j];
      }
    }
  }

  /** ComparedTo as written orders the magnitudes of two canonical
    * well-formed operands of one sign whenever their integer parts differ in
    * length, are equal, or are single symbols: its sign is then the sign of
    * the difference of the values scaled to the longer fraction. */
  lemma ComparedToMagnitudes(a: BigNumber, b: BigNumber)
    requires SameDotConfig(a, b) && CanonicalText(a.value) && CanonicalText(b.value)
    requires a.sign == b.sign
    requires var ip1, ip2 := IntPart(a.format, a.value), IntPart(a.format, b.value);
      |ip1| != |ip2| || ip1 == ip2 || |ip1| == 1
    ensures var c, f := a.format, CommonPlaces(a.format, a, b);
      Sign(ComparedTo(a, b)) == Sign(Scaled(c, a.value, f) - Scaled(c, b.value, f))
  {
    var c, f := a.format, CommonPlaces(a.format, a, b);
    var v, w := a.value, b.value;
    var ip1, ip2 := IntPart(c, v), IntPart(c, w);
    if |ip1| != |ip2| {
      assert ComparedTo(a, b) == |ip1| - |ip2|;
      if |ip1| > |ip2| {
        LongerIntPart(c, v, w, f);
      } else {
        LongerIntPart(c, w, v, f);
      }
    } else if ip1 != ip2 {
      var k := FirstDifference(ip1, ip2);
      assert k == 0 && ip1 == [ip1[0]];
      DigitIsToInteger(c.alphabet, ip1[0]);
      DigitIsToInteger(c.alphabet, ip2[0]);
      assert ComparedTo(a, b) == Digit(c.alphabet, ip1[k]) - Digit(c.alphabet, ip2[k]);
      FirstIntDifference(c, v, w, f);
    } else {
      assert ComparedTo(a, b) == CompareFractions(c.alphabet, c.alphabet, FracPart(c, v), FracPart(c, w), 0);
      SameIntPart(c, v, w);
    }
  }

  // ---------------------------------------------------------------------
  // The comparison ComparedTo evidently intends

  /** Magnitudes compared as ComparedTo evidently intends: the longer integer
    * part is the larger, then the first differing integer digit decides,
    * then the fractions with a missing symbol read as 0; -1, 0 or 1. */
  function CompareMagnitudes(a: BigNumber, b: BigNumber): int
  {
    var (ip1, fp1) := SplitDecimal(a.value, a.format.decimalSeparator);
    var (ip2, fp2) := SplitDecimal(b.value, b.format.decimalSeparator);
    if |ip1| != |ip2| then (if |ip1| > |ip2| then 1 else -1)
    else if ip1 != ip2 then
      var k := FirstDifference(ip1, ip2);
      Sign(Digit(a.format.alphabet, ip1[k]) - Digit(b.format.alphabet, ip2[k]))
    else Sign(CompareFractions(a.format.alphabet, b.format.alphabet, fp1, fp2, 0))
  }

  /** The corrected comparison of magnitudes is the sign of the difference of
    * the values, for any two canonical well-formed operands. */
  lemma CompareMagnitudesOrder(a: BigNumber, b: BigNumber)
    requires SameDotConfig(a, b) && CanonicalText(a.value) && CanonicalText(b.value)
    ensures var c, f := a.format, CommonPlaces(a.format, a, b);
      CompareMagnitudes(a, b) == Sign(Scaled(c, a.value, f) - Scaled(c, b.value, f))
  {
    var c, f := a.format, CommonPlaces(a.format, a, b);
    var v, w := a.value, b.value;
    var ip1, ip2 := IntPart(c, v), IntPart(c, w);
    if |ip1| != |ip2| {
      if |ip1| > |ip2| {
        LongerIntPart(c, v, w, f);
      } else {
        LongerIntPart(c, w, v, f);
      }
    } else if ip1 != ip2 {
      FirstIntDifference(c, v, w, f);
    } else {
      SameIntPart(c, v, w);
    }
  }

  /** The magnitude of a number is zero: every digit is "0". */
  predicate IsZero(a: BigNumber)
  {
    var d := DigitsOf(a.format, a.value);
    forall k :: 0 <= k < |d| ==> d[k] == '0'
  }

  /** Digits are worth zero exactly when each of them is "0". */
  lemma {:induction false} ValZeroIff(c: Config, s: string)
    requires ValidConfig(c) && IsDigits(c.alphabet, c.base, s)
    ensures Val(c.alphabet, c.base, s) == 0 <==> forall k :: 0 <= k < |s| ==> s[k] == '0'
    decreases |s|
  {
    if s != [] {
      var s', ch := s[..|s| - 1], s[|s| - 1];
      assert IsDigits(c.alphabet, c.base, s') by {
        forall k | 0 <= k < |s'| ensures s'[k] in c.alphabet[..c.base] {
          assert s'[k] == s[k];
        }
      }
      ValZeroIff(c, s');
      var d := Digit(c.alphabet, ch);
      assert d == 0 <==> ch == '0' by {
        SymbolAtDigit(c.alphabet, c.base, ch);
      }
      assert Val(c.alphabet, c.base, s) == Val(c.alphabet, c.base, s') * c.base + d;
      ZeroSum(Val(c.alphabet, c.base, s'), c.base, d);
      assert (forall k :: 0 <= k < |s| ==> s[k] == '0') <==>
        (forall k :: 0 <= k < |s'| ==> s'[k] == '0') && ch == '0' by {
        assert forall k :: 0 <= k < |s'| ==> s'[k] == s[k];
      }
    }
  }

  lemma ZeroSum(v: nat, b: nat, d: nat)
    requires b >= 1
    ensures v * b + d == 0 <==> v == 0 && d == 0
  {
    if v > 0 {
      MulLe(1, v, b);
    }
  }

  /** A scaled value is zero exactly when the number is zero. */
  lemma ScaledZero(c: Config, v: string, f: nat)
    requires WellFormed(c, v) && f >= |FracPart(c, v)|
    ensures Scaled(c, v, f) == 0 <==> IsZero(BigNumber(v, c, 1))
  {
    var x, p := Val(c.alphabet, c.base, DigitsOf(c, v)), Pow(c.base, f - |FracPart(c, v)|);
    assert Scaled(c, v, f) == x * p;
    ZeroSum(x, p, 0);
    ZeroDigitsIff(c, v);
  }

  /** A well-formed text's digits are worth 0 exactly when it is zero. */
  lemma ZeroDigitsIff(c: Config, v: string)
    requires WellFormed(c, v)
    ensures Val(c.alphabet, c.base, DigitsOf(c, v)) == 0 <==> IsZero(BigNumber(v, c, 1))
  {
    WellFormedDigits(c, v);
    ValZeroIff(c, DigitsOf(c, v));
  }

  /** ComparedTo as evidently intended: a negative number is below a positive
    * one unless both are zero, and two negative numbers compare in reverse
    * order of their magnitudes. */
  function ComparedToFixed(a: BigNumber, b: BigNumber): int
  {
    var neg1, neg2 := a.sign < 0, b.sign < 0;
    if neg1 != neg2 then (if IsZero(a) && IsZero(b) then 0 else if neg2 then 1 else -1)
    else if neg1 then -CompareMagnitudes(a, b)
    else CompareMagnitudes(a, b)
  }

  /** The corrected ComparedTo is the sign of the difference of the signed
    * values, for any two canonical well-formed operands. */
  lemma ComparedToFixedOrder(a: BigNumber, b: BigNumber)
    requires SameDotConfig(a, b) && CanonicalText(a.value) && CanonicalText(b.value)
    ensures var f := CommonPlaces(a.format, a, b);
      ComparedToFixed(a, b) == Sign(SignedScaled(a.format, a, f) - SignedScaled(a.format, b, f))
  {
    var c, f := a.format, CommonPlaces(a.format, a, b);
    var x: int, y: int := Scaled(c, a.value, f), Scaled(c, b.value, f);
    assert IsZero(a) <==> x == 0 by {
      ScaledZero(c, a.value, f);
      assert IsZero(a) == IsZero(BigNumber(a.value, c, 1));
    }
    assert IsZero(b) <==> y == 0 by {
      ScaledZero(c, b.value, f);
      assert IsZero(b) == IsZero(BigNumber(b.value, c, 1));
    }
    assert CompareMagnitudes(a, b) == Sign(x - y) by {
      CompareMagnitudesOrder(a, b);
    }
  }

  // ---------------------------------------------------------------------
  // Inputs on which ComparedTo as written goes wrong

  /** A configuration whose alphabet starts "012", as the default one does. */
  predicate Starts012(c: Config)
  {
    ValidConfig(c) && c.base >= 3 && c.alphabet[1] == '1' && c.alphabet[2] == '2'
  }

  lemma DefaultStarts012()
    ensures Starts012(DefaultConfig)
  {
    DefaultConfigValid();
  }

  lemma SmallDigits(c: Config)
    requires Starts012(c)
    ensures Digit(c.alphabet, '1') == 1 && Digit(c.alphabet, '2') == 2
  {
    DigitOfSymbol(c.alphabet, c.base, 1);
    DigitOfSymbol(c.alphabet, c.base, 2);
  }

  /** Equal-length integer parts: toInteger of the whole part "12" is its
    * position 1 in the alphabet, and 1 minus the digit 1 is 0, so 12 and 11
    * compare equal; the corrected comparison puts 12 above 11. */
  lemma ComparedToWholeIntPart(c: Config)
    requires Starts012(c)
    ensures var a, b := BigNumber("12", c, 1), BigNumber("11", c, 1);
      ComparedTo(a, b) == 0 && ComparedToFixed(a, b) == 1
  {
    var s := c.alphabet;
    assert !OccursAt(s, "12", 0) && OccursAt(s, "12", 1) by {
      assert s[0..2] != "12" && s[1..3] == "12";
    }
    SmallDigits(c);
    DigitIsToInteger(s, '1');
  }

  /** Two negative numbers are compared by magnitude without reversing the
    * order: -2 comes out above -1. */
  lemma ComparedToNegatives(c: Config)
    requires Starts012(c)
    ensures var a, b := BigNumber("2", c, -1), BigNumber("1", c, -1);
      ComparedTo(a, b) > 0 && ComparedToFixed(a, b) == -1
  {
    SmallDigits(c);
    DigitIsToInteger(c.alphabet, '1');
    DigitIsToInteger(c.alphabet, '2');
  }

  /** Different signs return the larger sign, 1 either way: -1 comes out
    * above 1. */
  lemma ComparedToSigns(c: Config)
    requires Starts012(c)
    ensures var a, b := BigNumber("1", c, -1), BigNumber("1", c, 1);
      ComparedTo(a, b) == 1 && ComparedToFixed(a, b) == -1
  {
    var d := DigitsOf(c, "1");
    assert d[0] == '1';
  }
}
