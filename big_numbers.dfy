/** The BigNumber value of bigNumber.go: an unsigned digit text with at most
  * one decimal separator, a sign, and the formatting configuration the number
  * was created with. The configuration is an immutable value here. */
module BigNumbers {
  import opened GoStrings
  import opened BigDigits
  import opened Outcomes

  datatype Config = Config(
    alphabet: string,
    groupSeparator: string,
    decimalSeparator: char,
    base: int,
    maxDecimal: int)

  /** The default alphabet "0123456789abcdefghijklmnopqrstuvwxyz": the ten
    * decimal digits, then the 26 lower-case letters. */
  const DefaultAlphabet: string := DecimalDigits + "abcdefghijklmnopqrstuvwxyz"
  const DecimalDigits: string := "0123456789"

  const DefaultConfig: Config := Config(DefaultAlphabet, ",", '.', 10, 6)

  datatype BigNumber = BigNumber(value: string, format: Config, sign: int)

  function Max(x: int, y: int): int { if x > y then x else y }

  /** What the digit loops need of a configuration: a base of at least two
    * whose symbols are distinct, the symbol "0" for the digit zero (the code
    * pads and trims with the literal "0"), and a separator that is no digit. */
  predicate ValidConfig(c: Config)
  {
    2 <= c.base && DistinctDigits(c.alphabet, c.base) &&
    c.alphabet[0] == '0' && c.decimalSeparator !in c.alphabet[..c.base]
  }

  lemma DefaultConfigValid()
    ensures ValidConfig(DefaultConfig)
    ensures '-' !in DefaultAlphabet[..10] && '.' !in DefaultAlphabet[..10]
  {
    var d := DefaultAlphabet[..10];
    assert d == DecimalDigits;
    assert forall p :: 0 <= p < 10 ==> d[p] as int == 48 + p;
  }

  lemma ZeroIsNoSeparator(c: Config)
    requires ValidConfig(c)
    ensures c.decimalSeparator != '0' && '0' in c.alphabet[..c.base]
    ensures Digit(c.alphabet, '0') == 0
  {
    assert c.alphabet[..c.base][0] == '0';
    DigitOfSymbol(c.alphabet, c.base, 0);
  }

  /** The unsigned part of NewBigNumber: leading "0"s are dropped, an empty
    * text or a lone "." reads as "0", and a leading "." gets a "0" in front. */
  function CanonicalDigits(u: string): (v: string)
    ensures CanonicalText(v)
  {
    var t := TrimLeft(u, '0');
    var v := if t == "" || t == "." then "0" else t;
    if HasPrefix(v, ".") then "0" + v else v
  }

  /** What NewBigNumber can produce: not empty, no leading ".", and a leading
    * "0" only as the whole integer part. */
  predicate CanonicalText(v: string)
  {
    v != [] && v[0] != '.' && (v[0] == '0' ==> |v| == 1 || v[1] == '.')
  }

  /** NewBigNumber: an optional "-" gives the sign, the rest is canonicalised,
    * and the number always carries the default configuration. */
  function NewBigNumber(value: string): (r: BigNumber)
    ensures r.format == DefaultConfig
    ensures r.sign == (if HasPrefix(value, "-") then -1 else 1)
    ensures CanonicalText(r.value)
  {
    var sign := if HasPrefix(value, "-") then -1 else 1;
    var u := if HasPrefix(value, "-") then value[1..] else value;
    BigNumber(CanonicalDigits(u), DefaultConfig, sign)
  }

  /** SetConfig: a missing configuration means the default one. */
  function SetConfig(a: BigNumber, config: Option<Config>): (r: BigNumber)
    ensures r.value == a.value && r.sign == a.sign
    ensures config.None? ==> r.format == DefaultConfig
    ensures config.Some? ==> r.format == config.value
  {
    a.(format := if config.None? then DefaultConfig else config.value)
  }

  /** SetBase: only the base of the configuration changes. */
  function SetBase(a: BigNumber, base: int): (r: BigNumber)
    ensures r.value == a.value && r.sign == a.sign && r.format.base == base
    ensures r.format.alphabet == a.format.alphabet && r.format.maxDecimal == a.format.maxDecimal
    ensures r.format.decimalSeparator == a.format.decimalSeparator
    ensures r.format.groupSeparator == a.format.groupSeparator
  {
    a.(format := a.format.(base := base))
  }

  /** String: a "-" in front of every negative value except "0". */
  function String(a: BigNumber): (r: string)
    ensures a.sign == -1 && a.value != "0" ==> r == "-" + a.value
    ensures !(a.sign == -1 && a.value != "0") ==> r == a.value
  {
    if a.sign == -1 && a.value != "0" then "-" + a.value else a.value
  }

  /** String undoes NewBigNumber on the texts NewBigNumber produces: a
    * canonical text without "-" prints as itself, and with a "-" in front
    * as itself with the "-", unless it is "0". ("0." is canonical but reads
    * as "0".) */
  lemma StringRoundTrip(t: string)
    requires CanonicalText(t) && t != "0." && !HasPrefix(t, "-")
    ensures String(NewBigNumber(t)) == t
    ensures t != "0" ==> String(NewBigNumber("-" + t)) == "-" + t
  {
    CanonicalKept(t);
    var m := "-" + t;
    assert HasPrefix(m, "-") && m[1..] == t;
  }

  /** CanonicalDigits leaves a canonical text other than "0." alone. */
  lemma CanonicalKept(t: string)
    requires CanonicalText(t) && t != "0."
    ensures CanonicalDigits(t) == t
  {
    if t[0] == '0' {
      if |t| == 1 {
        assert TrimLeft(t[1..], '0') == [];
      } else {
        var rest := t[1..];
        assert rest[0] == '.' && TrimLeft(t, '0') == rest;
        assert rest != ".";
        assert HasPrefix(rest, ".");
        assert "0" + rest == t;
      }
    }
  }

  /** splitDecimal: the first two pieces of the value cut at the separator
    * (the pieces strings.Split yields first, see SplitDecimalIsSplit); the
    * second is empty when there is no separator. */
  function SplitDecimal(value: string, sep: char): (r: (string, string))
    ensures sep !in r.0 && sep !in r.1
  {
    var i := IndexChar(value, sep);
    if i == -1 then (value, [])
    else
      var rest := value[i + 1..];
      var j := IndexChar(rest, sep);
      IndexCharFirst(value, sep);
      IndexCharFirst(rest, sep);
      (value[..i], if j == -1 then rest else rest[..j])
  }

  /** Splitting undoes joining with one separator. */
  lemma SplitDecimalOf(ip: string, fp: string, sep: char)
    requires sep !in ip && sep !in fp
    ensures SplitDecimal(ip + [sep] + fp, sep) == (ip, fp)
    ensures SplitDecimal(ip, sep) == (ip, [])
  {
    var v := ip + [sep] + fp;
    assert v[..|ip|] == ip && v[|ip| + 1..] == fp;
    IndexCharAt(v, sep, |ip|);
  }

  /** splitDecimal takes the first two pieces of strings.Split. */
  lemma SplitDecimalIsSplit(value: string, sep: char)
    ensures var parts := Split(value, [sep]);
      SplitDecimal(value, sep).0 == parts[0] &&
      (|parts| > 1 <==> sep in value) &&
      (|parts| > 1 ==> SplitDecimal(value, sep).1 == parts[1])
  {
    if sep in value {
      SplitAtSeparator(value, sep, IndexChar(value, sep));
    } else {
      IndexOfChar(value, sep);
    }
  }

  /** strings.Split at the first separator, at position i: the piece before
    * it, then the pieces of the rest. */
  lemma SplitAtSeparator(value: string, sep: char, i: int)
    requires i == IndexChar(value, sep) && i != -1
    ensures var parts := Split(value, [sep]);
      |parts| > 1 && parts[0] == value[..i] && parts[1] == SplitDecimal(value, sep).1
  {
    IndexOfChar(value, sep);
    var rest := value[i + 1..];
    assert Split(value, [sep]) == [value[..i]] + SplitOn(rest, [sep]);
    SplitFirstPiece(rest, sep);
  }

  /** The first piece of strings.Split at a character ends before its first
    * occurrence. */
  lemma SplitFirstPiece(s: string, sep: char)
    ensures SplitOn(s, [sep])[0] == if IndexChar(s, sep) == -1 then s else s[..IndexChar(s, sep)]
  {
    IndexOfChar(s, sep);
  }

  /** How many "0"s insertDecimalPoint puts in front of a text of length
    * `len` to have `decPlaces` symbols after the separator and one before. */
  function PointPadding(len: nat, decPlaces: int): nat
  {
    if decPlaces >= len then decPlaces - len + 1 else 0
  }

  /** insertDecimalPoint: a separator with `decPlaces` symbols after it; a
    * non-positive count leaves the text alone. */
  function InsertDecimalPoint(num: string, decPlaces: int, sep: char): (r: string)
    ensures decPlaces <= 0 ==> r == num
    ensures decPlaces > 0 ==> |r| == Max(|num|, decPlaces + 1) + 1
  {
    if decPlaces <= 0 then num
    else
      var padded := if decPlaces >= |num| then Repeat('0', decPlaces - |num| + 1) + num else num;
      padded[..|padded| - decPlaces] + [sep] + padded[|padded| - decPlaces..]
  }

  /** Splitting after insertDecimalPoint gives a non-empty integer part and
    * exactly `decPlaces` fraction symbols, which together are the text with
    * the padding zeros in front. */
  lemma InsertThenSplit(num: string, decPlaces: int, sep: char)
    requires sep !in num && sep != '0' && decPlaces > 0
    ensures var r := InsertDecimalPoint(num, decPlaces, sep);
      var (ip, fp) := SplitDecimal(r, sep);
      r == ip + [sep] + fp && |fp| == decPlaces && |ip| >= 1 &&
      ip + fp == Repeat('0', PointPadding(|num|, decPlaces)) + num &&
      (PointPadding(|num|, decPlaces) > 0 ==> |ip| == 1)
  {
    var padded := Repeat('0', PointPadding(|num|, decPlaces)) + num;
    assert PointPadding(|num|, decPlaces) == 0 ==> padded == num;
    var cut := |padded| - decPlaces;
    var ip, fp := padded[..cut], padded[cut..];
    assert sep !in padded;
    assert sep !in ip && sep !in fp;
    SplitDecimalOf(ip, fp, sep);
    assert ip + fp == padded;
  }

  /** normalizeDecimal: both numbers written with a separator and the same
    * number of fraction symbols, the shorter fraction padded with "0". */
  function NormalizeDecimal(num1: string, num2: string, sep: char): (string, string)
  {
    var (i1, d1) := SplitDecimal(num1, sep);
    var (i2, d2) := SplitDecimal(num2, sep);
    var f := Max(|d1|, |d2|);
    (i1 + [sep] + d1 + Repeat('0', f - |d1|), i2 + [sep] + d2 + Repeat('0', f - |d2|))
  }

  /** A value the arithmetic can work on: an integer part of at least one
    * digit, then optionally the separator and fraction digits, and nothing
    * else. */
  predicate WellFormed(c: Config, v: string)
  {
    ValidConfig(c) &&
    var (ip, fp) := SplitDecimal(v, c.decimalSeparator);
    |ip| >= 1 && IsDigits(c.alphabet, c.base, ip) && IsDigits(c.alphabet, c.base, fp) &&
    (v == ip || v == ip + [c.decimalSeparator] + fp)
  }

  function IntPart(c: Config, v: string): string { SplitDecimal(v, c.decimalSeparator).0 }
  function FracPart(c: Config, v: string): string { SplitDecimal(v, c.decimalSeparator).1 }

  /** All digits of the value, separator dropped. */
  function DigitsOf(c: Config, v: string): string { IntPart(c, v) + FracPart(c, v) }

  /** The value of `v` times base^f, for f at least its number of fraction
    * digits: an integer, so that values with different fraction lengths can
    * be compared and combined exactly. */
  function Scaled(c: Config, v: string, f: nat): nat
    requires f >= |FracPart(c, v)| && c.base >= 0
  {
    Val(c.alphabet, c.base, DigitsOf(c, v)) * Pow(c.base, f - |FracPart(c, v)|)
  }

  /** The signed value of a number times base^f, its text read in the
    * configuration c. */
  function SignedScaled(c: Config, x: BigNumber, f: nat): int
    requires f >= |FracPart(c, x.value)| && c.base >= 0
  {
    var m: int := Scaled(c, x.value, f);
    if x.sign < 0 then -m else m
  }

  /** An integer part and a fraction of digits make a well-formed value, with
    * or without the separator. */
  lemma WellFormedOf(c: Config, ip: string, fp: string)
    requires ValidConfig(c) && |ip| >= 1
    requires IsDigits(c.alphabet, c.base, ip) && IsDigits(c.alphabet, c.base, fp)
    ensures WellFormed(c, ip + [c.decimalSeparator] + fp)
    ensures IntPart(c, ip + [c.decimalSeparator] + fp) == ip
    ensures FracPart(c, ip + [c.decimalSeparator] + fp) == fp
    ensures fp == [] ==> WellFormed(c, ip) && IntPart(c, ip) == ip && FracPart(c, ip) == []
  {
    var sep := c.decimalSeparator;
    assert sep !in ip && sep !in fp;
    SplitDecimalOf(ip, fp, sep);
  }

  /** The digits of a well-formed value are digits of its base. */
  lemma WellFormedDigits(c: Config, v: string)
    requires WellFormed(c, v)
    ensures IsDigits(c.alphabet, c.base, DigitsOf(c, v))
    ensures c.decimalSeparator in v ==> v == IntPart(c, v) + [c.decimalSeparator] + FracPart(c, v)
    ensures c.decimalSeparator !in v ==> v == IntPart(c, v) && FracPart(c, v) == []
  {
    var ip, fp := IntPart(c, v), FracPart(c, v);
    ConcatDigits(c.alphabet, c.base, ip, fp);
    if c.decimalSeparator in v && v == ip {
      assert false;
    }
  }

  lemma ConcatDigits(alphabet: string, base: nat, s: string, t: string)
    requires IsDigits(alphabet, base, s) && IsDigits(alphabet, base, t)
    ensures IsDigits(alphabet, base, s + t)
  {
    forall k | 0 <= k < |s + t| ensures (s + t)[k] in alphabet[..base] {
      if k < |s| { assert (s + t)[k] == s[k]; } else { assert (s + t)[k] == t[k - |s|]; }
    }
  }

  /** "0" symbols are digits worth zero. */
  lemma ZerosAreDigits(c: Config, n: nat)
    requires ValidConfig(c)
    ensures IsDigits(c.alphabet, c.base, Repeat('0', n))
    ensures forall k :: 0 <= k < n ==> Digit(c.alphabet, Repeat('0', n)[k]) == 0
  {
    ZeroIsNoSeparator(c);
  }

  /** One number as normalizeDecimal writes it: its integer part, the
    * separator, and its fraction padded with "0" to `f` symbols. */
  function PadFraction(c: Config, v: string, f: nat): string
    requires f >= |FracPart(c, v)|
  {
    IntPart(c, v) + [c.decimalSeparator] + (FracPart(c, v) + Repeat('0', f - |FracPart(c, v)|))
  }

  lemma PadFractionSplit(c: Config, v: string, f: nat)
    requires ValidConfig(c) && f >= |FracPart(c, v)|
    ensures SplitDecimal(PadFraction(c, v, f), c.decimalSeparator) ==
      (IntPart(c, v), FracPart(c, v) + Repeat('0', f - |FracPart(c, v)|))
  {
    ZeroIsNoSeparator(c);
    var z := Repeat('0', f - |FracPart(c, v)|);
    assert c.decimalSeparator !in z;
    SplitDecimalOf(IntPart(c, v), FracPart(c, v) + z, c.decimalSeparator);
  }

  /** normalizeDecimal keeps both integer parts and pads both fractions with
    * "0" to the longer length (PadFractionSplit reads the parts back). */
  lemma NormalizeDecimalParts(c: Config, v1: string, v2: string)
    ensures var f := Max(|FracPart(c, v1)|, |FracPart(c, v2)|);
      NormalizeDecimal(v1, v2, c.decimalSeparator) == (PadFraction(c, v1, f), PadFraction(c, v2, f))
  {
    var f := Max(|FracPart(c, v1)|, |FracPart(c, v2)|);
    var sep := c.decimalSeparator;
    var i1, d1 := IntPart(c, v1), FracPart(c, v1);
    var i2, d2 := IntPart(c, v2), FracPart(c, v2);
    AppendAssoc(i1 + [sep], d1, Repeat('0', f - |d1|));
    AppendAssoc(i2 + [sep], d2, Repeat('0', f - |d2|));
  }

  /** Padding a fraction with "0" to `f` places gives the value scaled to f. */
  lemma PaddedValue(c: Config, v: string, f: nat)
    requires ValidConfig(c) && f >= |FracPart(c, v)|
    ensures Val(c.alphabet, c.base, IntPart(c, v) + FracPart(c, v) + Repeat('0', f - |FracPart(c, v)|))
      == Scaled(c, v, f)
  {
    ZerosAreDigits(c, f - |FracPart(c, v)|);
    ValTrailingZeros(c.alphabet, c.base, IntPart(c, v) + FracPart(c, v), Repeat('0', f - |FracPart(c, v)|));
  }

  /** Trimming a concatenation trims the first part, and the second part
    * too when the first is all trimmed away. */
  lemma {:induction false} TrimLeftConcat(s: string, t: string, c: char)
    ensures TrimLeft(s + t, c) == if TrimLeft(s, c) == [] then TrimLeft(t, c) else TrimLeft(s, c) + t
    decreases |s|
  {
    if s == [] {
      assert s + t == t;
    } else if s[0] == c {
      assert (s + t)[1..] == s[1..] + t;
      TrimLeftConcat(s[1..], t, c);
    }
  }

  /** The "0"s TrimLeft drops from digits are worth nothing. */
  lemma TrimmedZerosValue(c: Config, ip: string, fp: string)
    requires ValidConfig(c)
    ensures Val(c.alphabet, c.base, ip + fp) == Val(c.alphabet, c.base, TrimLeft(ip, '0') + fp)
  {
    var t := TrimLeft(ip, '0');
    TrimLeftSuffix(ip, '0');
    var z := ip[..|ip| - |t|];
    ZeroIsNoSeparator(c);
    assert forall k :: 0 <= k < |z| ==> Digit(c.alphabet, z[k]) == 0 by {
      forall k | 0 <= k < |z| ensures Digit(c.alphabet, z[k]) == 0 { assert z[k] == ip[k] == '0'; }
    }
    assert ip + fp == z + (t + fp);
    ValLeadingZeros(c.alphabet, c.base, z, t + fp);
  }

  /** A configuration whose texts NewBigNumber's literal "-", "0" and "."
    * handling reads correctly. */
  predicate DotConfig(c: Config)
  {
    ValidConfig(c) && c.decimalSeparator == '.' && '-' !in c.alphabet[..c.base]
  }

  lemma DefaultConfigDot()
    ensures DotConfig(DefaultConfig)
  {
    DefaultConfigValid();
  }

  /** Canonicalising a well-formed text keeps it well formed, keeps its
    * fraction and its digit value. */
  lemma CanonicalDigitsValue(c: Config, u: string)
    requires DotConfig(c) && WellFormed(c, u)
    ensures var v := CanonicalDigits(u);
      !HasPrefix(u, "-") && WellFormed(c, v) && FracPart(c, v) == FracPart(c, u) &&
      Val(c.alphabet, c.base, DigitsOf(c, v)) == Val(c.alphabet, c.base, DigitsOf(c, u))
  {
    var ip, fp := IntPart(c, u), FracPart(c, u);
    WellFormedDigits(c, u);
    SplitDigits(c, ip, fp);
    assert u[0] == ip[0] && ip[0] in c.alphabet[..c.base];
    NoMinusPrefix(u);
    TrimmedZerosValue(c, ip, fp);
    if '.' in u {
      CanonicalWithPoint(c, ip, fp);
    } else {
      CanonicalWithoutPoint(c, ip);
    }
  }

  lemma NoMinusPrefix(u: string)
    requires u != [] && u[0] != '-'
    ensures !HasPrefix(u, "-")
  {
    assert |u| >= 1 && u[..1][0] == u[0];
  }

  lemma SplitDigits(c: Config, ip: string, fp: string)
    requires c.base >= 0 && IsDigits(c.alphabet, c.base, ip + fp)
    ensures IsDigits(c.alphabet, c.base, ip) && IsDigits(c.alphabet, c.base, fp)
    ensures IsDigits(c.alphabet, c.base, TrimLeft(ip, '0'))
  {
    forall k | 0 <= k < |ip| ensures ip[k] in c.alphabet[..c.base] {
      assert ip[k] == (ip + fp)[k];
    }
    forall k | 0 <= k < |fp| ensures fp[k] in c.alphabet[..c.base] {
      assert fp[k] == (ip + fp)[|ip| + k];
    }
    TrimLeftDigits(c.alphabet, c.base, ip);
  }

  /** What TrimLeft leaves of digits are digits. */
  lemma TrimLeftDigits(alphabet: string, base: nat, s: string)
    requires IsDigits(alphabet, base, s)
    ensures IsDigits(alphabet, base, TrimLeft(s, '0'))
  {
    var t := TrimLeft(s, '0');
    TrimLeftSuffix(s, '0');
    forall k | 0 <= k < |t| ensures t[k] in alphabet[..base] {
      assert t[k] == s[|s| - |t| + k];
    }
  }

  /** CanonicalDigits keeps a trimmed text that starts with a digit. */
  lemma CanonicalOfTrimmed(u: string, t: string)
    requires TrimLeft(u, '0') == t && t != [] && t[0] != '.'
    ensures CanonicalDigits(u) == t
  {
  }

  lemma CanonicalWithPoint(c: Config, ip: string, fp: string)
    requires DotConfig(c) && |ip| >= 1
    requires IsDigits(c.alphabet, c.base, TrimLeft(ip, '0')) && IsDigits(c.alphabet, c.base, fp)
    ensures var v := CanonicalDigits(ip + ['.'] + fp);
      WellFormed(c, v) && FracPart(c, v) == fp &&
      Val(c.alphabet, c.base, DigitsOf(c, v)) == Val(c.alphabet, c.base, TrimLeft(ip, '0') + fp)
  {
    PointTrim(ip, fp);
    if TrimLeft(ip, '0') != [] {
      CanonicalPointLeading(c, ip, fp);
    } else if fp == [] {
      CanonicalPointZero(c, ip, fp);
    } else {
      CanonicalPointFraction(c, ip, fp);
    }
  }

  /** The "0"s trimmed in front of a text with a separator come from its integer part. */
  lemma PointTrim(ip: string, fp: string)
    ensures TrimLeft(ip + ['.'] + fp, '0') ==
      if TrimLeft(ip, '0') == [] then ['.'] + fp else TrimLeft(ip, '0') + (['.'] + fp)
  {
    var rest := ['.'] + fp;
    assert ip + ['.'] + fp == ip + rest;
    TrimLeftConcat(ip, rest, '0');
    assert TrimLeft(rest, '0') == rest;
  }

  lemma CanonicalPointLeading(c: Config, ip: string, fp: string)
    requires DotConfig(c) && TrimLeft(ip, '0') != []
    requires IsDigits(c.alphabet, c.base, TrimLeft(ip, '0')) && IsDigits(c.alphabet, c.base, fp)
    requires TrimLeft(ip + ['.'] + fp, '0') == TrimLeft(ip, '0') + (['.'] + fp)
    ensures var v := CanonicalDigits(ip + ['.'] + fp);
      WellFormed(c, v) && FracPart(c, v) == fp &&
      Val(c.alphabet, c.base, DigitsOf(c, v)) == Val(c.alphabet, c.base, TrimLeft(ip, '0') + fp)
  {
    var u, t := ip + ['.'] + fp, TrimLeft(ip, '0');
    CanonicalLeadingDigit(c, u, t, fp);
    assert DigitsOf(c, CanonicalDigits(u)) == t + fp;
  }

  /** A text whose trimmed form starts with a digit is kept as trimmed. */
  lemma CanonicalLeadingDigit(c: Config, u: string, t: string, fp: string)
    requires DotConfig(c) && t != []
    requires IsDigits(c.alphabet, c.base, t) && IsDigits(c.alphabet, c.base, fp)
    requires TrimLeft(u, '0') == t + (['.'] + fp)
    ensures var v := CanonicalDigits(u);
      WellFormed(c, v) && FracPart(c, v) == fp && DigitsOf(c, v) == t + fp
  {
    assert t[0] in c.alphabet[..c.base];
    assert t + (['.'] + fp) == t + ['.'] + fp;
    CanonicalOfTrimmed(u, t + ['.'] + fp);
    WellFormedOf(c, t, fp);
  }

  lemma CanonicalPointZero(c: Config, ip: string, fp: string)
    requires DotConfig(c) && TrimLeft(ip, '0') == [] && fp == []
    requires TrimLeft(ip + ['.'] + fp, '0') == ['.'] + fp
    ensures var v := CanonicalDigits(ip + ['.'] + fp);
      WellFormed(c, v) && FracPart(c, v) == fp &&
      Val(c.alphabet, c.base, DigitsOf(c, v)) == Val(c.alphabet, c.base, TrimLeft(ip, '0') + fp)
  {
    assert ['.'] + fp == ['.'];
    assert CanonicalDigits(ip + ['.'] + fp) == "0";
    assert TrimLeft(ip, '0') + fp == [];
    ZeroText(c);
  }

  lemma CanonicalPointFraction(c: Config, ip: string, fp: string)
    requires DotConfig(c) && TrimLeft(ip, '0') == [] && fp != [] && IsDigits(c.alphabet, c.base, fp)
    requires TrimLeft(ip + ['.'] + fp, '0') == ['.'] + fp
    ensures var v := CanonicalDigits(ip + ['.'] + fp);
      WellFormed(c, v) && FracPart(c, v) == fp &&
      Val(c.alphabet, c.base, DigitsOf(c, v)) == Val(c.alphabet, c.base, TrimLeft(ip, '0') + fp)
  {
    var t := ['.'] + fp;
    assert |t| >= 2 && HasPrefix(t, ".");
    assert CanonicalDigits(ip + ['.'] + fp) == "0" + t;
    assert "0" + t == "0" + ['.'] + fp;
    assert TrimLeft(ip, '0') + fp == fp;
    ZeroDigitText(c);
    WellFormedOf(c, "0", fp);
    ValLeadingZeros(c.alphabet, c.base, "0", fp);
  }

  lemma CanonicalWithoutPoint(c: Config, ip: string)
    requires DotConfig(c) && |ip| >= 1
    requires IsDigits(c.alphabet, c.base, TrimLeft(ip, '0'))
    ensures var v := CanonicalDigits(ip);
      WellFormed(c, v) && FracPart(c, v) == [] &&
      Val(c.alphabet, c.base, DigitsOf(c, v)) == Val(c.alphabet, c.base, TrimLeft(ip, '0') + [])
  {
    if TrimLeft(ip, '0') != [] {
      CanonicalPlainLeading(c, ip);
    } else {
      CanonicalPlainZero(c, ip);
    }
  }

  lemma CanonicalPlainZero(c: Config, ip: string)
    requires ValidConfig(c) && TrimLeft(ip, '0') == []
    ensures var v := CanonicalDigits(ip);
      WellFormed(c, v) && FracPart(c, v) == [] &&
      Val(c.alphabet, c.base, DigitsOf(c, v)) == Val(c.alphabet, c.base, TrimLeft(ip, '0') + [])
  {
    assert CanonicalDigits(ip) == "0";
    assert TrimLeft(ip, '0') + [] == [];
    ZeroText(c);
  }

  lemma CanonicalPlainLeading(c: Config, ip: string)
    requires DotConfig(c) && TrimLeft(ip, '0') != []
    requires IsDigits(c.alphabet, c.base, TrimLeft(ip, '0'))
    ensures var v := CanonicalDigits(ip);
      WellFormed(c, v) && FracPart(c, v) == [] &&
      Val(c.alphabet, c.base, DigitsOf(c, v)) == Val(c.alphabet, c.base, TrimLeft(ip, '0') + [])
  {
    var ip' := TrimLeft(ip, '0');
    assert ip'[0] in c.alphabet[..c.base];
    CanonicalOfTrimmed(ip, ip');
    WellFormedOf(c, ip', []);
  }

  /** The text "0" is well formed, has no fraction and is worth zero. */
  lemma ZeroText(c: Config)
    requires ValidConfig(c)
    ensures WellFormed(c, "0") && FracPart(c, "0") == [] && Val(c.alphabet, c.base, DigitsOf(c, "0")) == 0
  {
    ZeroDigitText(c);
    WellFormedOf(c, "0", []);
    assert DigitsOf(c, "0") == "0" + [] == "0";
  }

  /** The text "0" is a well-formed value worth zero. */
  lemma ZeroDigitText(c: Config)
    requires ValidConfig(c)
    ensures IsDigits(c.alphabet, c.base, "0") && Val(c.alphabet, c.base, "0") == 0
  {
    ZeroIsNoSeparator(c);
    assert "0"[0] == c.alphabet[..c.base][0];
    assert "0"[..0] == [];
  }

  /** NewBigNumber keeps the value of a well-formed default-configuration
    * text: the result is well formed, positive, and has the same fraction
    * and the same digit value. */
  lemma NewBigNumberValue(u: string)
    requires WellFormed(DefaultConfig, u)
    ensures var r := NewBigNumber(u);
      r.sign == 1 && WellFormed(DefaultConfig, r.value) &&
      FracPart(DefaultConfig, r.value) == FracPart(DefaultConfig, u) &&
      Val(DefaultAlphabet, 10, DigitsOf(DefaultConfig, r.value)) ==
        Val(DefaultAlphabet, 10, DigitsOf(DefaultConfig, u))
  {
    DefaultConfigDot();
    CanonicalDigitsValue(DefaultConfig, u);
  }

  /** Trimming "0"s in front before NewBigNumber changes nothing for a text
    * without "-". */
  lemma NewBigNumberTrimmed(x: string)
    requires '-' !in x
    ensures NewBigNumber(TrimLeft(x, '0')) == NewBigNumber(x)
  {
    var t := TrimLeft(x, '0');
    TrimLeftSuffix(x, '0');
    assert '-' !in t;
    NoMinusIn(x);
    NoMinusIn(t);
    assert TrimLeft(t, '0') == t;
  }

  lemma NoMinusIn(u: string)
    requires '-' !in u
    ensures !HasPrefix(u, "-")
  {
    if |u| >= 1 {
      assert u[..1][0] == u[0];
    }
  }

  // ---------------------------------------------------------------------
  // Comparison as written

  /** The first position where two different strings of one length differ. */
  function FirstDifference(s: string, t: string): (k: nat)
    requires |s| == |t| && s != t
    ensures k < |s| && s[k] != t[k] && s[..k] == t[..k]
  {
    if s[0] != t[0] then 0
    else
      assert s[1..] != t[1..] by { assert s == [s[0]] + s[1..] && t == [t[0]] + t[1..]; }
      var k := FirstDifference(s[1..], t[1..]);
      assert s[..k + 1] == [s[0]] + s[1..][..k];
      assert t[..k + 1] == [t[0]] + t[1..][..k];
      k + 1
  }

  /** The fraction loop of ComparedTo from position k on: a missing symbol
    * reads as 0, and the first difference of digit values decides. */
  function CompareFractions(alphabet1: string, alphabet2: string, f1: string, f2: string, k: nat): int
    decreases Max(|f1|, |f2|) - k
  {
    if k >= Max(|f1|, |f2|) then 0
    else
      var d1 := if k < |f1| then Digit(alphabet1, f1[k]) else 0;
      var d2 := if k < |f2| then Digit(alphabet2, f2[k]) else 0;
      if d1 != d2 then d1 - d2 else CompareFractions(alphabet1, alphabet2, f1, f2, k + 1)
  }

  /** ComparedTo as written: different signs return the larger sign;
    * integer parts of different lengths return the difference of lengths;
    * at the first differing symbol of equal-length integer parts it subtracts
    * the digit of the second from toInteger of the whole first integer part;
    * otherwise the fractions decide. */
  function ComparedTo(a: BigNumber, b: BigNumber): int
  {
    if a.sign != b.sign then (if a.sign > b.sign then a.sign else b.sign)
    else
      var (ip1, fp1) := SplitDecimal(a.value, a.format.decimalSeparator);
      var (ip2, fp2) := SplitDecimal(b.value, b.format.decimalSeparator);
      if ip1 != ip2 && |ip1| != |ip2| then |ip1| - |ip2|
      else if ip1 != ip2 then
        var k := FirstDifference(ip1, ip2);
        ToInteger(a.format.alphabet, ip1) - ToInteger(b.format.alphabet, [ip2[k]])
      else CompareFractions(a.format.alphabet, b.format.alphabet, fp1, fp2, 0)
  }

  predicate IsEqualTo(a: BigNumber, b: BigNumber) { ComparedTo(a, b) == 0 }
  predicate IsGreaterThan(a: BigNumber, b: BigNumber) { ComparedTo(a, b) > 0 }
  predicate IsGreaterThanOrEqualTo(a: BigNumber, b: BigNumber) { ComparedTo(a, b) >= 0 }
  predicate IsLessThan(a: BigNumber, b: BigNumber) { ComparedTo(a, b) < 0 }
  predicate IsLessThanOrEqualTo(a: BigNumber, b: BigNumber) { ComparedTo(a, b) <= 0 }

  // ---------------------------------------------------------------------
  // Small accessors

  /** DecimalPlaces: the length of the second piece when the value splits into
    * exactly two pieces, else 0. */
  function DecimalPlaces(a: BigNumber): (r: nat)
    ensures a.format.decimalSeparator !in a.value ==> r == 0
    ensures WellFormed(a.format, a.value) ==> r == |FracPart(a.format, a.value)|
  {
    var parts := Split(a.value, [a.format.decimalSeparator]);
    SplitWellFormed(a.format, a.value);
    if |parts| == 2 then |parts[1]| else 0
  }

  /** IsInteger: no fraction symbols. */
  predicate IsInteger(a: BigNumber)
    ensures a.format.decimalSeparator !in a.value ==> IsInteger(a)
    ensures WellFormed(a.format, a.value) ==> (IsInteger(a) <==> FracPart(a.format, a.value) == [])
  {
    DecimalPlaces(a) == 0
  }

  /** How Split sees a value without a separator, or a well-formed one. */
  lemma SplitWellFormed(c: Config, v: string)
    ensures c.decimalSeparator !in v ==> Split(v, [c.decimalSeparator]) == [v]
    ensures WellFormed(c, v) && c.decimalSeparator in v ==>
      Split(v, [c.decimalSeparator]) == [IntPart(c, v), FracPart(c, v)]
    ensures WellFormed(c, v) && c.decimalSeparator !in v ==> FracPart(c, v) == []
  {
    var sep := c.decimalSeparator;
    if sep !in v {
      SplitCharAbsent(v, sep);
    }
    if WellFormed(c, v) {
      WellFormedDigits(c, v);
      if sep in v {
        var ip, fp := IntPart(c, v), FracPart(c, v);
        SplitDecimalOf(ip, fp, sep);
        SplitCharOnce(v, sep, |ip|);
        assert v[..|ip|] == ip && v[|ip| + 1..] == fp;
      }
    }
  }

  /** Precision: the number of symbols once every separator is removed. */
  function Precision(a: BigNumber): (r: nat)
    ensures WellFormed(a.format, a.value) ==> r == |DigitsOf(a.format, a.value)|
    ensures r <= |a.value|
  {
    PrecisionWellFormed(a.format, a.value);
    |RemoveAll(a.value, a.format.decimalSeparator)|
  }

  lemma PrecisionWellFormed(c: Config, v: string)
    ensures WellFormed(c, v) ==> |RemoveAll(v, c.decimalSeparator)| == |DigitsOf(c, v)|
  {
    if WellFormed(c, v) {
      var sep := c.decimalSeparator;
      var ip, fp := IntPart(c, v), FracPart(c, v);
      WellFormedDigits(c, v);
      assert sep !in ip && sep !in fp;
      if sep in v {
        RemovePoint(ip, fp, sep);
      } else {
        RemoveAllOf(ip, sep);
        assert ip + fp == ip;
      }
    }
  }

  /** Removing the separator from an integer part, the separator and a
    * fraction leaves the digits. */
  lemma RemovePoint(ip: string, fp: string, sep: char)
    requires sep !in ip && sep !in fp
    ensures RemoveAll(ip + [sep] + fp, sep) == ip + fp
  {
    var rest := [sep] + fp;
    assert RemoveAll([sep], sep) == [];
    RemoveAllOf(fp, sep);
    RemoveAllConcat([sep], fp, sep);
    assert [] + fp == fp;
    assert RemoveAll(rest, sep) == fp;
    RemoveAllOf(ip, sep);
    RemoveAllConcat(ip, rest, sep);
    assert ip + [sep] + fp == ip + rest;
  }

  lemma {:induction false} RemoveAllOf(s: string, c: char)
    requires c !in s
    ensures RemoveAll(s, c) == s
    decreases |s|
  {
    if s != [] {
      RemoveAllOf(s[1..], c);
      assert s == [s[0]] + s[1..];
    }
  }

  lemma {:induction false} RemoveAllConcat(s: string, t: string, c: char)
    ensures RemoveAll(s + t, c) == RemoveAll(s, c) + RemoveAll(t, c)
    decreases |s|
  {
    if s != [] {
      RemoveAllConcat(s[1..], t, c);
      assert (s + t)[1..] == s[1..] + t;
    } else {
      assert s + t == t;
    }
  }

  /** AbsoluteValue: a negative number is rebuilt from its text, so it gets
    * the default configuration; anything else is returned as it is. */
  function AbsoluteValue(a: BigNumber): (r: BigNumber)
    ensures a.sign >= 0 ==> r == a
    ensures a.sign < 0 ==> r.format == DefaultConfig && CanonicalText(r.value)
    ensures a.sign < 0 && !HasPrefix(a.value, "-") ==> r.sign == 1
  {
    if a.sign < 0 then NewBigNumber(a.value) else a
  }

  /** For a negative well-formed default-configuration number, AbsoluteValue
    * is positive with the same magnitude. */
  lemma AbsoluteValueMagnitude(a: BigNumber)
    requires a.format == DefaultConfig && WellFormed(a.format, a.value) && a.sign < 0
    ensures var r := AbsoluteValue(a);
      r.sign == 1 && |FracPart(r.format, r.value)| == |FracPart(a.format, a.value)| &&
      Scaled(r.format, r.value, |FracPart(a.format, a.value)|) ==
        Scaled(a.format, a.value, |FracPart(a.format, a.value)|)
  {
    NewBigNumberValue(a.value);
  }

  /** IntegerValue: the text before the first separator, through NewBigNumber
    * (so the sign is lost). */
  function IntegerValue(a: BigNumber): (r: BigNumber)
    ensures r.format == DefaultConfig && CanonicalText(r.value)
    ensures r == NewBigNumber(IntPart(a.format, a.value))
  {
    var parts := Split(a.value, [a.format.decimalSeparator]);
    SplitDecimalIsSplit(a.value, a.format.decimalSeparator);
    NewBigNumber(parts[0])
  }

  /** IntegerValue of a well-formed default-configuration number is the
    * positive number of its integer part: no fraction, and its value is the
    * value of the digits before the separator. */
  lemma IntegerValueTruncates(a: BigNumber)
    requires a.format == DefaultConfig && WellFormed(a.format, a.value)
    ensures var r := IntegerValue(a);
      r.sign == 1 && WellFormed(DefaultConfig, r.value) && FracPart(DefaultConfig, r.value) == [] &&
      Val(DefaultAlphabet, 10, DigitsOf(DefaultConfig, r.value)) ==
        Val(DefaultAlphabet, 10, IntPart(a.format, a.value))
  {
    DefaultConfigDot();
    IntPartCanonical(a.format, a.value);
    var ip := IntPart(a.format, a.value);
    assert IntegerValue(a) == NewBigNumber(ip);
  }

  /** The integer part of a well-formed text, canonicalised, is a well-formed
    * text without fraction and with the value of that integer part. */
  lemma IntPartCanonical(c: Config, v: string)
    requires DotConfig(c) && WellFormed(c, v)
    ensures var ip := IntPart(c, v); var w := CanonicalDigits(ip);
      !HasPrefix(ip, "-") && WellFormed(c, w) && FracPart(c, w) == [] &&
      Val(c.alphabet, c.base, DigitsOf(c, w)) == Val(c.alphabet, c.base, ip)
  {
    var ip := IntPart(c, v);
    assert IsDigits(c.alphabet, c.base, ip) by {
      WellFormedDigits(c, v);
      SplitDigits(c, ip, FracPart(c, v));
    }
    assert WellFormed(c, ip) && DigitsOf(c, ip) == ip by {
      WellFormedOf(c, ip, []);
      assert ip + [] == ip;
    }
    CanonicalDigitsValue(c, ip);
  }
}
