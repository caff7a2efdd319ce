/** ShiftedBy: the separator moves `places` symbols to the right (positive)
  * or to the left (negative). The fraction is padded with "0" on the right,
  * or the integer part on the left, until the separator has room, and the
  * new text goes through NewBigNumber. */
module BigShift {
  import opened GoStrings
  import opened BigDigits
  import opened BigNumbers
  import opened BigValues

  /** The fraction after the first padding loop: "0"s appended until it has
    * at least `n` symbols. */
  function PadZerosRight(s: string, n: int): (r: string)
    ensures |r| == Max(|s|, n)
  {
    s + Repeat('0', Max(|s|, n) - |s|)
  }

  /** The padded fraction starts with the fraction; the rest is "0"s. */
  lemma PadZerosRightShape(s: string, n: int)
    ensures var r := PadZerosRight(s, n);
      r[..|s|] == s && forall k :: |s| <= k < |r| ==> r[k] == '0'
  {
    var r := PadZerosRight(s, n);
    assert r == s + Repeat('0', Max(|s|, n) - |s|);
  }

  /** The integer part after the second padding loop: "0"s put in front
    * until it has at least `n` symbols. */
  function PadZerosLeft(s: string, n: int): (r: string)
    ensures |r| == Max(|s|, n)
  {
    Repeat('0', Max(|s|, n) - |s|) + s
  }

  /** The padded integer part ends with the integer part; before it are
    * only "0"s. */
  lemma PadZerosLeftShape(s: string, n: int)
    ensures var r := PadZerosLeft(s, n);
      r[|r| - |s|..] == s && forall k :: 0 <= k < |r| - |s| ==> r[k] == '0'
  {
    var r := PadZerosLeft(s, n);
    assert r == Repeat('0', Max(|s|, n) - |s|) + s;
  }

  /** The symbols before the separator after a shift to the right: the
    * integer part and the first `places` symbols of the padded fraction. */
  function RightLo(ip: string, fp: string, places: nat): string
  {
    ip + PadZerosRight(fp, places)[..places]
  }

  /** The symbols after the separator after a shift to the right. */
  function RightHi(fp: string, places: nat): string
  {
    PadZerosRight(fp, places)[places..]
  }

  /** The text handed to NewBigNumber for a shift to the right, from the
    * integer part and the fraction of the number. */
  function RightText(ip: string, fp: string, sep: char, places: nat): string
  {
    PointText(RightLo(ip, fp, places), RightHi(fp, places), sep)
  }

  /** The symbols before the separator after a shift of `q` places to the
    * left: the padded integer part without its last `q` symbols. */
  function LeftLo(ip: string, q: nat): string
  {
    var e := PadZerosLeft(ip, q);
    e[..|e| - q]
  }

  /** The symbols after the separator after a shift of `q` places to the
    * left: the last `q` symbols of the padded integer part, then the
    * fraction. */
  function LeftHi(ip: string, fp: string, q: nat): string
  {
    var e := PadZerosLeft(ip, q);
    e[|e| - q..] + fp
  }

  /** The text handed to NewBigNumber for a shift of `q` places to the left. */
  function LeftText(ip: string, fp: string, sep: char, q: nat): string
  {
    PointText(LeftLo(ip, q), LeftHi(ip, fp, q), sep)
  }

  /** The symbols before the separator, the separator, the symbols after it. */
  function PointText(lo: string, hi: string, sep: char): string
  {
    lo + [sep] + hi
  }

  /** The text handed to NewBigNumber for a non-zero shift. */
  function ShiftedText(c: Config, v: string, places: int): string
  {
    var parts := SplitDecimal(v, c.decimalSeparator);
    if places > 0 then RightText(parts.0, parts.1, c.decimalSeparator, places)
    else LeftText(parts.0, parts.1, c.decimalSeparator, -places)
  }

  /** ShiftedBy as a value: the number itself for no shift, otherwise the
    * shifted text read by NewBigNumber. */
  function Shift(a: BigNumber, places: int): (r: BigNumber)
    ensures places == 0 ==> r == a
    ensures places != 0 ==> r.format == DefaultConfig && CanonicalText(r.value)
  {
    if places == 0 then a else NewBigNumber(ShiftedText(a.format, a.value, places))
  }

  /** ShiftedBy as written: the parts cut at the separator, one of the two
    * padding loops, and the new text through NewBigNumber. */
  method ShiftedBy(a: BigNumber, places: int) returns (r: BigNumber)
    ensures r == Shift(a, places)
  {
    if places == 0 {
      return a;
    }
    var sep := a.format.decimalSeparator;
    var intPart, decPart := SplitParts(a.value, sep);
    var text;
    if places > 0 {
      text := JoinRight(intPart, decPart, sep, places);
    } else {
      text := JoinLeft(intPart, decPart, sep, -places);
    }
    r := NewBigNumber(text);
  }

  /** The text of a shift to the right: the fraction padded by the first
    * loop, its first `places` symbols moved in front of the separator. */
  method JoinRight(intPart: string, decPart: string, sep: char, places: nat) returns (text: string)
    ensures text == RightText(intPart, decPart, sep, places)
  {
    var padded := PadFraction(decPart, places);
    text := intPart + padded[..places] + [sep] + padded[places..];
    RightTextIs(intPart, decPart, sep, places, padded);
  }

  /** The text of a shift of `q` places to the left: the integer part padded
    * by the second loop, its last `q` symbols moved behind the separator. */
  method JoinLeft(intPart: string, decPart: string, sep: char, q: nat) returns (text: string)
    ensures text == LeftText(intPart, decPart, sep, q)
  {
    var padded := PadInteger(intPart, q);
    text := padded[..|padded| - q] + [sep] + padded[|padded| - q..] + decPart;
    LeftTextIs(intPart, decPart, sep, q, padded);
  }

  /** ShiftedBy's cut of the text: the first piece strings.Split yields at
    * the separator, and the second one or "" when there is none. */
  method SplitParts(value: string, sep: char) returns (intPart: string, decPart: string)
    ensures (intPart, decPart) == SplitDecimal(value, sep)
  {
    var parts := Split(value, [sep]);
    SplitDecimalIsSplit(value, sep);
    intPart := parts[0];
    decPart := "";
    if |parts| > 1 {
      decPart := parts[1];
    }
  }

  /** The text of a shift to the right as the loop's result is joined. */
  lemma RightTextIs(intPart: string, decPart: string, sep: char, places: nat, padded: string)
    requires padded == PadZerosRight(decPart, places)
    ensures RightText(intPart, decPart, sep, places) == intPart + padded[..places] + [sep] + padded[places..]
  {
  }

  /** The text of a shift to the left as the loop's result is joined. */
  lemma LeftTextIs(intPart: string, decPart: string, sep: char, q: nat, padded: string)
    requires padded == PadZerosLeft(intPart, q)
    ensures LeftText(intPart, decPart, sep, q) ==
      padded[..|padded| - q] + [sep] + padded[|padded| - q..] + decPart
  {
    AppendAssoc(padded[..|padded| - q] + [sep], padded[|padded| - q..], decPart);
  }

  /** The first padding loop: "0" appended while the fraction is shorter
    * than `places`. */
  method PadFraction(decPart: string, places: int) returns (r: string)
    ensures r == PadZerosRight(decPart, places)
  {
    r := decPart;
    ghost var k: nat := 0;
    while places > |r|
      invariant |r| == |decPart| + k <= Max(|decPart|, places)
      invariant r == decPart + Repeat('0', k)
      decreases places - |r|
    {
      ZeroAppended(decPart, k);
      r := r + "0";
      k := k + 1;
    }
    PadRightOf(decPart, places, k);
  }

  /** The second padding loop: "0" put in front while the integer part is
    * shorter than `places`. */
  method PadInteger(intPart: string, places: int) returns (r: string)
    ensures r == PadZerosLeft(intPart, places)
  {
    r := intPart;
    ghost var k: nat := 0;
    while places > |r|
      invariant |r| == |intPart| + k <= Max(|intPart|, places)
      invariant r == Repeat('0', k) + intPart
      decreases places - |r|
    {
      ZeroPrepended(intPart, k);
      r := "0" + r;
      k := k + 1;
    }
    PadLeftOf(intPart, places, k);
  }

  lemma PadRightOf(s: string, n: int, k: nat)
    requires k == Max(|s|, n) - |s|
    ensures PadZerosRight(s, n) == s + Repeat('0', k)
  {
  }

  lemma PadLeftOf(s: string, n: int, k: nat)
    requires k == Max(|s|, n) - |s|
    ensures PadZerosLeft(s, n) == Repeat('0', k) + s
  {
  }

  /** One more "0" after the padding. */
  lemma ZeroAppended(s: string, k: nat)
    ensures s + Repeat('0', k) + "0" == s + Repeat('0', k + 1)
  {
    RepeatAppend('0', k);
    AppendAssoc(s, Repeat('0', k), "0");
  }

  /** One more "0" before the padding. */
  lemma ZeroPrepended(s: string, k: nat)
    ensures "0" + (Repeat('0', k) + s) == Repeat('0', k + 1) + s
  {
    assert "0" + Repeat('0', k) == Repeat('0', k + 1);
    AppendAssoc("0", Repeat('0', k), s);
  }

  /** A digit text with "." inside (the integer part may be empty) reads as
    * a positive well-formed number with that fraction and the value of all
    * its digits. */
  lemma PointTextValue(c: Config, t: string, ip: string, fp: string)
    requires DotConfig(c) && IsDigits(c.alphabet, c.base, ip) && IsDigits(c.alphabet, c.base, fp)
    requires t == PointText(ip, fp, '.')
    ensures var r := NewBigNumber(t);
      r.sign == 1 && WellFormed(c, r.value) && FracPart(c, r.value) == fp &&
      Val(c.alphabet, c.base, DigitsOf(c, r.value)) == Val(c.alphabet, c.base, ip + fp)
  {
    assert t == ip + ['.'] + fp;
    if ip != [] {
      WellFormedOf(c, ip, fp);
      CanonicalDigitsValue(c, t);
      assert ip[0] in c.alphabet[..c.base] && t[0] == ip[0];
    } else {
      assert t == ['.'] + fp;
      assert TrimLeft(t, '0') == ['.'] + fp;
      assert TrimLeft(ip, '0') + fp == ip + fp;
      if fp == [] {
        CanonicalPointZero(c, ip, fp);
      } else {
        CanonicalPointFraction(c, ip, fp);
      }
    }
    NoMinusPrefix(t);
  }

  /** The two sides of the separator in the text of a shift to the right:
    * digits, which together are the digits of the number followed by the
    * padding "0"s. */
  lemma RightTextDigits(c: Config, ip: string, fp: string, places: nat)
    requires DotConfig(c) && IsDigits(c.alphabet, c.base, ip) && IsDigits(c.alphabet, c.base, fp)
    ensures IsDigits(c.alphabet, c.base, RightLo(ip, fp, places))
    ensures IsDigits(c.alphabet, c.base, RightHi(fp, places))
    ensures |RightHi(fp, places)| == Max(|fp|, places) - places
    ensures RightLo(ip, fp, places) + RightHi(fp, places) == ip + fp + Repeat('0', Max(|fp|, places) - |fp|)
  {
    ZeroIsNoSeparator(c);
    var d := PadZerosRight(fp, places);
    var z := Repeat('0', Max(|fp|, places) - |fp|);
    assert d == fp + z;
    assert IsDigits(c.alphabet, c.base, d);
    SliceJoin(d, places);
    AppendAssoc(ip, d[..places], d[places..]);
    AppendAssoc(ip, fp, z);
  }

  /** The two sides of the separator in the text of a shift of `q` places to
    * the left are digits, q + |fp| of them after the separator. */
  lemma LeftTextDigits(c: Config, ip: string, fp: string, q: nat)
    requires DotConfig(c) && IsDigits(c.alphabet, c.base, ip) && IsDigits(c.alphabet, c.base, fp)
    ensures IsDigits(c.alphabet, c.base, LeftLo(ip, q))
    ensures IsDigits(c.alphabet, c.base, LeftHi(ip, fp, q))
    ensures |LeftHi(ip, fp, q)| == q + |fp|
  {
    ZeroIsNoSeparator(c);
    var e := PadZerosLeft(ip, q);
    PadZerosLeftShape(ip, q);
    assert IsDigits(c.alphabet, c.base, e) by {
      forall k | 0 <= k < |e| ensures e[k] in c.alphabet[..c.base] {
        if k >= |e| - |ip| { assert e[k] == ip[k - (|e| - |ip|)]; }
      }
    }
  }

  /** Together the two sides are the padding "0"s followed by the digits of
    * the number, so they have its digit value. */
  lemma LeftTextVal(c: Config, ip: string, fp: string, q: nat)
    requires ValidConfig(c)
    ensures Val(c.alphabet, c.base, LeftLo(ip, q) + LeftHi(ip, fp, q)) == Val(c.alphabet, c.base, ip + fp)
  {
    ZeroIsNoSeparator(c);
    var e := PadZerosLeft(ip, q);
    var z := Repeat('0', Max(|ip|, q) - |ip|);
    var cut := |e| - q;
    SliceJoin(e, cut);
    AppendAssoc(e[..cut], e[cut..], fp);
    assert e == z + ip;
    AppendAssoc(z, ip, fp);
    ValLeadingZeros(c.alphabet, c.base, z, ip + fp);
  }

  /** The text Shift reads for a shift to the right, from the parts of the
    * number. */
  lemma ShiftRightText(a: BigNumber, places: int)
    requires a.format.decimalSeparator == '.' && places > 0
    ensures Shift(a, places) ==
      NewBigNumber(RightText(IntPart(a.format, a.value), FracPart(a.format, a.value), '.', places))
  {
  }

  /** The text Shift reads for a shift to the left. */
  lemma ShiftLeftText(a: BigNumber, places: int)
    requires a.format.decimalSeparator == '.' && places < 0
    ensures Shift(a, places) ==
      NewBigNumber(LeftText(IntPart(a.format, a.value), FracPart(a.format, a.value), '.', -places))
  {
  }

  /** A value padded with "0"s to m fraction symbols, read as a text with
    * g fraction symbols, is the value scaled to m. */
  lemma PaddedScaled(c: Config, v: string, w: string, g: nat, m: nat)
    requires ValidConfig(c) && g == |FracPart(c, w)| && m >= |FracPart(c, v)|
    requires Val(c.alphabet, c.base, DigitsOf(c, w)) ==
      Val(c.alphabet, c.base, IntPart(c, v) + FracPart(c, v) + Repeat('0', m - |FracPart(c, v)|))
    ensures Scaled(c, w, g) == Scaled(c, v, m)
  {
    ScaledNoPad(c, w, g);
    PaddedValue(c, v, m);
  }

  /** Two texts with the same digit value, each read at its own number of
    * fraction symbols, have the same scaled value. */
  lemma SameDigitsScaled(c: Config, v: string, w: string)
    requires c.base >= 0 && Val(c.alphabet, c.base, DigitsOf(c, w)) == Val(c.alphabet, c.base, DigitsOf(c, v))
    ensures Scaled(c, w, |FracPart(c, w)|) == Scaled(c, v, |FracPart(c, v)|)
  {
    ScaledNoPad(c, w, |FracPart(c, w)|);
    ScaledNoPad(c, v, |FracPart(c, v)|);
  }

  /** The text of a shift to the right reads as a positive well-formed
    * number whose digits are those of the number followed by the padding. */
  lemma RightTextValue(c: Config, ip: string, fp: string, places: nat, r: BigNumber)
    requires DotConfig(c) && IsDigits(c.alphabet, c.base, ip) && IsDigits(c.alphabet, c.base, fp)
    requires r == NewBigNumber(RightText(ip, fp, '.', places))
    ensures var m := Max(|fp|, places);
      r.sign == 1 && WellFormed(c, r.value) && |FracPart(c, r.value)| == m - places &&
      Val(c.alphabet, c.base, DigitsOf(c, r.value)) ==
        Val(c.alphabet, c.base, ip + fp + Repeat('0', m - |fp|))
  {
    RightTextDigits(c, ip, fp, places);
    PointTextValue(c, RightText(ip, fp, '.', places), RightLo(ip, fp, places), RightHi(fp, places));
  }

  /** The text of a shift of `q` places to the left reads as a positive
    * well-formed number with q more fraction symbols and the same digit
    * value. */
  lemma LeftTextValue(c: Config, ip: string, fp: string, q: nat, r: BigNumber)
    requires DotConfig(c) && IsDigits(c.alphabet, c.base, ip) && IsDigits(c.alphabet, c.base, fp)
    requires r == NewBigNumber(LeftText(ip, fp, '.', q))
    ensures r.sign == 1 && WellFormed(c, r.value) && |FracPart(c, r.value)| == q + |fp| &&
      Val(c.alphabet, c.base, DigitsOf(c, r.value)) == Val(c.alphabet, c.base, ip + fp)
  {
    LeftTextDigits(c, ip, fp, q);
    PointTextValue(c, LeftText(ip, fp, '.', q), LeftLo(ip, q), LeftHi(ip, fp, q));
    LeftTextVal(c, ip, fp, q);
  }

  /** The number read from the text of a shift to the right, against the
    * text `v` it was cut from: with m the larger of the fraction length and
    * `places`, it has g = m - places fraction symbols and
    * r * base^g == v * base^m. */
  lemma RightScaled(c: Config, v: string, r: BigNumber, places: nat, m: nat, g: nat)
    requires DotConfig(c) && WellFormed(c, v)
    requires r == NewBigNumber(RightText(IntPart(c, v), FracPart(c, v), '.', places))
    requires m == Max(|FracPart(c, v)|, places) && g == m - places
    ensures r.sign == 1 && WellFormed(c, r.value) && |FracPart(c, r.value)| == g
    ensures Scaled(c, r.value, g) == Scaled(c, v, m)
  {
    var ip, fp := IntPart(c, v), FracPart(c, v);
    RightTextValue(c, ip, fp, places, r);
    PaddedScaled(c, v, r.value, g, m);
  }

  /** ShiftedBy multiplies by base^places, the number's own configuration
    * reading both texts: with m the larger of the fraction length and
    * `places`, the result has m - places fraction symbols and
    * result * base^(m - places) == a * base^m. Every non-zero shift gives a
    * positive number, whatever the sign of `a`. */
  lemma ShiftValue(a: BigNumber, places: int)
    requires DotConfig(a.format) && WellFormed(a.format, a.value)
    ensures var c := a.format; var r := Shift(a, places); var m := Max(|FracPart(c, a.value)|, places);
      WellFormed(c, r.value) && |FracPart(c, r.value)| == m - places &&
      Scaled(c, r.value, m - places) == Scaled(c, a.value, m) &&
      (places != 0 ==> r.sign == 1)
  {
    var m := Max(|FracPart(a.format, a.value)|, places);
    ShiftScaled(a.format, a, places, m, m - places);
  }

  /** ShiftValue with the configuration, m and m - places named. */
  lemma ShiftScaled(c: Config, a: BigNumber, places: int, m: nat, g: nat)
    requires a.format == c && DotConfig(c) && WellFormed(c, a.value)
    requires m == Max(|FracPart(c, a.value)|, places) && g == m - places
    ensures var r := Shift(a, places);
      WellFormed(c, r.value) && |FracPart(c, r.value)| == g && Scaled(c, r.value, g) == Scaled(c, a.value, m) &&
      (places != 0 ==> r.sign == 1)
  {
    if places > 0 {
      ShiftRightScaled(c, a, places, m, g);
    } else if places < 0 {
      ShiftLeftScaled(c, a, places, m, g);
    }
  }

  lemma ShiftRightScaled(c: Config, a: BigNumber, places: int, m: nat, g: nat)
    requires a.format == c && DotConfig(c) && WellFormed(c, a.value) && places > 0
    requires m == Max(|FracPart(c, a.value)|, places) && g == m - places
    ensures var r := Shift(a, places);
      WellFormed(c, r.value) && |FracPart(c, r.value)| == g && Scaled(c, r.value, g) == Scaled(c, a.value, m) &&
      r.sign == 1
  {
    ShiftRightText(a, places);
    RightScaled(c, a.value, Shift(a, places), places, m, g);
  }

  lemma ShiftLeftScaled(c: Config, a: BigNumber, places: int, m: nat, g: nat)
    requires a.format == c && DotConfig(c) && WellFormed(c, a.value) && places < 0
    requires m == Max(|FracPart(c, a.value)|, places) && g == m - places
    ensures var r := Shift(a, places);
      WellFormed(c, r.value) && |FracPart(c, r.value)| == g && Scaled(c, r.value, g) == Scaled(c, a.value, m) &&
      r.sign == 1
  {
    var ip, fp := IntPart(c, a.value), FracPart(c, a.value);
    assert IsDigits(c.alphabet, c.base, ip) && IsDigits(c.alphabet, c.base, fp);
    var r := Shift(a, places);
    ShiftLeftText(a, places);
    LeftTextValue(c, ip, fp, -places, r);
    assert m == |fp| && g == |fp| - places;
    SameDigitsScaled(c, a.value, r.value);
  }

  /** Shifting back undoes a shift of a number in the default configuration:
    * the value is the original one, written with m fraction symbols. */
  lemma ShiftBack(a: BigNumber, places: int)
    requires a.format == DefaultConfig && WellFormed(DefaultConfig, a.value)
    ensures var c := DefaultConfig; var m := Max(|FracPart(c, a.value)|, places);
      var s := Shift(Shift(a, places), -places);
      WellFormed(c, s.value) && |FracPart(c, s.value)| == m &&
      Scaled(c, s.value, m) == Scaled(c, a.value, m)
  {
    var c, m := DefaultConfig, Max(|FracPart(DefaultConfig, a.value)|, places);
    DefaultConfigDot();
    var r, g := Shift(a, places), m - places;
    ShiftScaled(c, a, places, m, g);
    ShiftBackScaled(c, r, places, g, m);
    ScaledChain(c, a.value, r.value, Shift(r, -places).value, m, g, g, m);
  }

  /** The shift back of a number in the default configuration, in terms of
    * its own fraction length g. */
  lemma ShiftBackScaled(c: Config, r: BigNumber, places: int, g: nat, m: nat)
    requires DotConfig(c) && r.format == c && WellFormed(c, r.value)
    requires |FracPart(c, r.value)| == g && m == g + places && m >= 0
    ensures var s := Shift(r, -places);
      WellFormed(c, s.value) && |FracPart(c, s.value)| == m && Scaled(c, s.value, m) == Scaled(c, r.value, g)
  {
    assert g == Max(|FracPart(c, r.value)|, -places);
    ShiftScaled(c, r, -places, g, m);
  }

  /** Scaling is transitive: s at g2 equals r at m2 == g1, and r at g1
    * equals v at m == g2. */
  lemma ScaledChain(c: Config, v: string, w: string, u: string, m: nat, g1: nat, m2: nat, g2: nat)
    requires c.base >= 0 && m >= |FracPart(c, v)| && g1 >= |FracPart(c, w)| && g2 >= |FracPart(c, u)|
    requires Scaled(c, w, g1) == Scaled(c, v, m) && m2 == g1 && g2 == m
    requires Scaled(c, u, g2) == Scaled(c, w, m2)
    ensures Scaled(c, u, m) == Scaled(c, v, m)
  {
  }

  lemma {:induction false} RepeatAppend(ch: char, k: nat)
    ensures Repeat(ch, k) + [ch] == Repeat(ch, k + 1)
  {
    if k > 0 {
      RepeatAppend(ch, k - 1);
      AppendAssoc([ch], Repeat(ch, k - 1), [ch]);
    }
  }

  // ---------------------------------------------------------------------
  // The sign is lost

  /** NewBigNumber reads "-1.5" as the negative 1.5. */
  lemma MinusOnePointFive()
    ensures var a := NewBigNumber("-1.5"); a.sign == -1 && a.value == "1.5"
  {
    assert HasPrefix("-1.5", "-");
    assert "-1.5"[1..] == "1.5";
    assert TrimLeft("1.5", '0') == "1.5";
    assert !HasPrefix("1.5", ".");
  }

  /** Shifting 1.5 one place to the right reads the text "15.". */
  lemma ShiftedOnePointFive(c: Config)
    requires c.decimalSeparator == '.'
    ensures ShiftedText(c, "1.5", 1) == "15."
  {
    assert SplitDecimal("1.5", '.') == ("1", "5") by {
      SplitDecimalOf("1", "5", '.');
      assert "1" + ['.'] + "5" == "1.5";
    }
    assert PadZerosRight("5", 1) == "5";
  }

  /** As written, -1.5 shifted one place to the right is the positive 15. */
  lemma ShiftDropsSign()
    ensures var a := NewBigNumber("-1.5");
      a.sign == -1 && a.value == "1.5" && Shift(a, 1) == NewBigNumber("15.") && Shift(a, 1).sign == 1
  {
    MinusOnePointFive();
    ShiftedOnePointFive(DefaultConfig);
    assert "15."[..1] == "1" && !HasPrefix("15.", "-");
  }

  /** ShiftedBy keeping the sign of the number it shifts. */
  function ShiftFixed(a: BigNumber, places: int): (r: BigNumber)
    ensures places == 0 ==> r == a
    ensures r.sign == a.sign
  {
    if places == 0 then a else Shift(a, places).(sign := a.sign)
  }

  /** With the sign kept, a shift multiplies the signed value by
    * base^places. */
  lemma ShiftFixedValue(a: BigNumber, places: int)
    requires DotConfig(a.format) && WellFormed(a.format, a.value)
    ensures var c := a.format; var r := ShiftFixed(a, places); var m := Max(|FracPart(c, a.value)|, places);
      WellFormed(c, r.value) && |FracPart(c, r.value)| == m - places &&
      SignedScaled(c, r, m - places) == SignedScaled(c, a, m)
  {
    if places != 0 {
      var c := a.format;
      var m := Max(|FracPart(c, a.value)|, places);
      ShiftValue(a, places);
      KeptSign(c, a, Shift(a, places), ShiftFixed(a, places), m - places, m);
    }
  }

  /** A number whose magnitude scales like `a`'s, given `a`'s sign, scales
    * like `a` signed. */
  lemma KeptSign(c: Config, a: BigNumber, r: BigNumber, s: BigNumber, g: nat, m: nat)
    requires c.base >= 0 && s == r.(sign := a.sign)
    requires g == |FracPart(c, r.value)| && m >= |FracPart(c, a.value)|
    requires Scaled(c, r.value, g) == Scaled(c, a.value, m)
    ensures s.value == r.value && SignedScaled(c, s, g) == SignedScaled(c, a, m)
  {
  }
}
