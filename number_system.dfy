/** numberSystem.go: writing an integer in Chinese numerals, place by
  * place from the units up, in the everyday or the financial characters. */
module NumberSystem {
  import opened Outcomes
  import opened GoStrings
  import opened DivMod

  /** The three tables ToChineseNumber reads: a character per digit, a
    * word per place, and the two contractions for twenty and thirty. */
  datatype Numerals = Numerals(digits: seq<string>, units: seq<string>, trans: seq<string>)
  {
    /** The sizes of the Go tables: ten digits, six place words, two
      * contractions. */
    predicate Sized() { |digits| == 10 && |units| == 6 && |trans| == 2 }
  }

  const Zero: char := '零'

  /** The tables for the everyday characters, or for the financial ones
    * when upper is set; the contractions are shared. */
  function NumeralsFor(upper: bool): (t: Numerals)
    ensures t.Sized() && forall k :: 0 <= k < 10 ==> |t.digits[k]| == 1
    ensures t.digits[0] == [Zero] && t.units[0] == ""
    ensures forall k :: 1 <= k < 10 ==> t.digits[k] != [Zero]
  {
    if upper then
      Numerals(["零", "壹", "贰", "叁", "肆", "伍", "陆", "柒", "捌", "玖"],
               ["", "拾", "佰", "仟", "万", "亿"], ["廿", "卅"])
    else
      Numerals(["零", "一", "二", "三", "四", "五", "六", "七", "八", "九"],
               ["", "十", "百", "千", "万", "亿"], ["廿", "卅"])
  }

  /** One turn of the loop at a place: what is put in front of the result
    * and the place counter after the turn's own reset (before `++`). */
  function Place(quotient: int, unitIndex: nat, result: string, base: int, t: Numerals): Outcome<(string, nat)>
    requires quotient > 0 && base != 0
    requires t.Sized()
  {
    var remainder := GoRem(quotient, base);
    if remainder > 0 || unitIndex == 0 || (unitIndex == 1 && GoRem(quotient, 10) == 0) then
      if unitIndex == 1 && (remainder > 1 && remainder <= 3) then
        Done((t.trans[remainder - 2] + result, unitIndex))
      else if remainder == 0 && unitIndex > 0 then
        Done((t.digits[remainder] + result, unitIndex))
      else if unitIndex / 4 > 1 then
        var ui := unitIndex % 4;
        if remainder < |t.digits| then
          Done((t.digits[remainder] + (t.units[ui % 4] + t.units[ui]) + result, ui))
        else Panic("index out of range")
      else if remainder < |t.digits| && unitIndex < |t.units| then
        Done((t.digits[remainder] + t.units[unitIndex] + result, unitIndex))
      else Panic("index out of range")
    else Done((result, unitIndex))
  }

  /** The loop from a given state to its end: the text it builds, or the
    * panic it runs into. A base of 1 never shrinks the quotient. */
  function Places(quotient: int, unitIndex: nat, result: string, base: int, t: Numerals): Outcome<string>
    requires (base != 1 || quotient <= 0) && t.Sized()
    decreases if quotient > 0 then quotient else 0
  {
    if quotient <= 0 then Done(result)
    else if base == 0 then Panic("integer divide by zero")
    else
      match Place(quotient, unitIndex, result, base, t)
      case Panic(m) => Panic(m)
      case Done((r, ui)) =>
        QuoShrinks(quotient, base);
        Places(GoQuo(quotient, base), ui + 1, r, base, t)
  }

  /** The text the loop builds for |number|, before the sign or the
    * trailing-zero clean-up. */
  function RawNumerals(number: int, base: int, upper: bool): Outcome<string>
    requires base != 1 || number == 0
  {
    Places(Abs(number), 0, "", base, NumeralsFor(upper))
  }

  /** What ToChineseNumber returns: "" for a base above ten; otherwise the
    * loop's text, after "负" for a negative number, "零" when the loop
    * wrote nothing, and with its trailing zeros removed otherwise. */
  function ChineseNumber(number: int, base: int, upper: bool): Outcome<string>
    requires base != 1 || number == 0
  {
    var t := NumeralsFor(upper);
    if base > |t.digits| then Done("")
    else match RawNumerals(number, base, upper)
      case Panic(m) => Panic(m)
      case Done(result) =>
        if number < 0 then Done("负" + result)
        else if result == "" then Done(t.digits[0])
        else Done(TrailingZeroRemoved(result))
  }

  /** removeTrailingZero's loop: while the text ends in 零, delete its first
    * 零. What is left does not end in 零 and is no longer than the text. */
  function TrailingZeroRemoved(s: string): (r: string)
    ensures !HasSuffix(r, [Zero]) && |r| <= |s|
    decreases |s|
  {
    if HasSuffix(s, [Zero]) then
      DropFirstZero(s);
      TrailingZeroRemoved(ReplaceFirst(s, [Zero], ""))
    else
      s
  }

  /** The clean-up deletes 零 characters and nothing else. */
  lemma {:induction false} TrailingZeroRemovedDeletesZeros(s: string)
    ensures var r := TrailingZeroRemoved(s);
      multiset(s) == multiset(r) + multiset(Repeat(Zero, |s| - |r|))
    decreases |s|
  {
    if HasSuffix(s, [Zero]) {
      var s' := ReplaceFirst(s, [Zero], "");
      DropFirstZero(s);
      TrailingZeroRemovedDeletesZeros(s');
      var r := TrailingZeroRemoved(s');
      TrailingZeroStep(s);
      RepeatOneMore(Zero, |s'| - |r|);
      MultisetRegroup(multiset(s), multiset(s'), multiset(r), multiset(Repeat(Zero, |s'| - |r|)),
                      multiset(Repeat(Zero, |s| - |r|)));
    } else {
      NoZeroToDelete(s);
    }
  }

  lemma NoZeroToDelete(s: string)
    requires !HasSuffix(s, [Zero])
    ensures var r := TrailingZeroRemoved(s);
      multiset(s) == multiset(r) + multiset(Repeat(Zero, |s| - |r|))
  {
    assert Repeat(Zero, 0) == [];
  }

  lemma MultisetRegroup(ms: multiset<char>, ms': multiset<char>, mr: multiset<char>, mz: multiset<char>, mz': multiset<char>)
    requires ms == ms' + multiset{Zero} && ms' == mr + mz && mz' == mz + multiset{Zero}
    ensures ms == mr + mz'
  {
  }

  lemma RepeatOneMore(c: char, n: nat)
    ensures multiset(Repeat(c, n + 1)) == multiset(Repeat(c, n)) + multiset{c}
  {
    assert Repeat(c, n + 1) == [c] + Repeat(c, n);
  }

  /** strings.Replace(s, "零", "", 1) on a text ending in 零 deletes one 零. */
  lemma DropFirstZero(s: string)
    requires HasSuffix(s, [Zero])
    ensures |ReplaceFirst(s, [Zero], "")| == |s| - 1
    ensures multiset(s) == multiset(ReplaceFirst(s, [Zero], "")) + multiset{Zero}
  {
    assert OccursAt(s, [Zero], |s| - 1);
    var i := Index(s, [Zero]);
    assert s[i..i + 1] == [Zero];
    assert s == s[..i] + [Zero] + s[i + 1..];
  }

  /** removeTrailingZero: the loop itself. */
  method RemoveTrailingZero(s: string) returns (str: string)
    ensures str == TrailingZeroRemoved(s)
  {
    str := s;
    while HasSuffix(str, [Zero])
      invariant TrailingZeroRemoved(str) == TrailingZeroRemoved(s)
      decreases |str|
    {
      DropFirstZero(str);
      str := ReplaceFirst(str, [Zero], "");
    }
  }

  /** Removing trailing zeros twice removes nothing more. */
  lemma TrailingZeroRemovedIdempotent(s: string)
    ensures TrailingZeroRemoved(TrailingZeroRemoved(s)) == TrailingZeroRemoved(s)
  {
  }

  /** Deleting the first 零 when it sits at k. */
  lemma ReplaceFirstZeroAt(z: string, k: nat)
    requires k < |z| && z[k] == Zero && forall p :: 0 <= p < k ==> z[p] != Zero
    ensures ReplaceFirst(z, [Zero], "") == z[..k] + z[k + 1..]
  {
    IndexOfChar(z, Zero);
    IndexCharAt(z, Zero, k);
  }

  lemma NoZeroNoSuffix(s: string)
    requires Zero !in s
    ensures !HasSuffix(s, [Zero])
  {
    if |s| > 0 {
      assert s[|s| - 1] in s;
      assert s[|s| - 1..] == [s[|s| - 1]];
    }
  }

  /** A text without 零 followed by n zeros is cleaned to the text itself. */
  lemma {:induction false} ZerosRemoved(s: string, n: nat)
    requires Zero !in s
    ensures TrailingZeroRemoved(s + Repeat(Zero, n)) == s
    decreases n
  {
    if n == 0 {
      NothingToRemove(s, n);
    } else {
      ZerosRemoved(s, n - 1);
      ZeroDropped(s, n);
      assert TrailingZeroRemoved(s + Repeat(Zero, n)) == TrailingZeroRemoved(s + Repeat(Zero, n - 1));
    }
  }

  lemma NothingToRemove(s: string, n: nat)
    requires Zero !in s && n == 0
    ensures TrailingZeroRemoved(s + Repeat(Zero, n)) == s
  {
    assert s + Repeat(Zero, n) == s;
    NoZeroNoSuffix(s);
  }

  /** One turn of the clean-up on a text ending in 零. */
  lemma TrailingZeroStep(z: string)
    requires HasSuffix(z, [Zero])
    ensures TrailingZeroRemoved(z) == TrailingZeroRemoved(ReplaceFirst(z, [Zero], ""))
  {
  }

  /** With no 零 in s, the first 零 of s followed by n zeros is the one
    * right after s. */
  lemma ZeroDropped(s: string, n: nat)
    requires Zero !in s && n > 0
    ensures TrailingZeroRemoved(s + Repeat(Zero, n)) == TrailingZeroRemoved(s + Repeat(Zero, n - 1))
  {
    var z := s + Repeat(Zero, n);
    EndsInZero(s, n, z);
    FirstZeroAfter(s, n, z);
    TrailingZeroStep(z);
  }

  lemma EndsInZero(s: string, n: nat, z: string)
    requires n > 0 && z == s + Repeat(Zero, n)
    ensures HasSuffix(z, [Zero])
  {
    assert z[|z| - 1..] == [z[|z| - 1]];
  }

  lemma FirstZeroAfter(s: string, n: nat, z: string)
    requires Zero !in s && n > 0 && z == s + Repeat(Zero, n)
    ensures ReplaceFirst(z, [Zero], "") == s + Repeat(Zero, n - 1)
  {
    assert forall p :: 0 <= p < |s| ==> z[p] == s[p];
    ReplaceFirstZeroAt(z, |s|);
    assert z[|s| + 1..] == Repeat(Zero, n - 1);
    assert z[..|s|] == s;
  }

  /** A turn only puts text in front of the result; at the units place it
    * always puts a digit there. */
  lemma PlaceExtends(quotient: int, unitIndex: nat, result: string, base: int, t: Numerals)
    requires quotient > 0 && base != 0 && t.Sized() && forall k :: 0 <= k < 10 ==> |t.digits[k]| == 1
    ensures var step := Place(quotient, unitIndex, result, base, t);
      step.Done? ==> HasSuffix(step.value.0, result) && (unitIndex == 0 ==> |step.value.0| > |result|)
  {
    var step := Place(quotient, unitIndex, result, base, t);
    if step.Done? {
      var p := step.value.0[..|step.value.0| - |result|];
      assert step.value.0 == p + result;
    }
  }

  lemma SuffixTrans(a: string, b: string, c: string)
    requires HasSuffix(a, b) && HasSuffix(b, c)
    ensures HasSuffix(a, c)
  {
    assert a[|a| - |c|..] == a[|a| - |b|..][|b| - |c|..];
  }

  /** The loop only ever puts text in front of what it has built. */
  lemma {:induction false} PlacesExtends(quotient: int, unitIndex: nat, result: string, base: int, t: Numerals)
    requires (base != 1 || quotient <= 0) && t.Sized() && forall k :: 0 <= k < 10 ==> |t.digits[k]| == 1
    ensures var r := Places(quotient, unitIndex, result, base, t);
      r.Done? ==> HasSuffix(r.value, result) && (quotient > 0 && unitIndex == 0 ==> |r.value| > |result|)
    decreases if quotient > 0 then quotient else 0
  {
    if quotient <= 0 {
      assert result[|result| - |result|..] == result;
    } else if base != 0 {
      var step := Place(quotient, unitIndex, result, base, t);
      if step.Done? {
        PlaceExtends(quotient, unitIndex, result, base, t);
        QuoShrinks(quotient, base);
        var (r', ui') := step.value;
        PlacesExtends(GoQuo(quotient, base), ui' + 1, r', base, t);
        var r := Places(quotient, unitIndex, result, base, t);
        assert r == Places(GoQuo(quotient, base), ui' + 1, r', base, t);
        if r.Done? {
          SuffixTrans(r.value, r', result);
        }
      }
    }
  }

  /** One turn of the loop, as Places takes it: a panic ends the loop, a
    * text goes on to the next place. */
  lemma PlacesTurn(quotient: int, unitIndex: nat, result: string, base: int, t: Numerals)
    requires quotient > 0 && base != 0 && base != 1 && t.Sized()
    ensures var step := Place(quotient, unitIndex, result, base, t);
      Places(quotient, unitIndex, result, base, t) ==
        if step.Panic? then Panic(step.message)
        else Places(GoQuo(quotient, base), step.value.1 + 1, step.value.0, base, t)
  {
  }

  /** The body of ToChineseNumber's loop at one place: the branches on
    * the remainder and the place, the contraction at the tens, and the
    * place counter's reset from the ninth place on. */
  method Turn(quotient: int, unitIndex: nat, result: string, base: int, t: Numerals) returns (step: Outcome<(string, nat)>)
    requires quotient > 0 && base != 0 && t.Sized()
    ensures step == Place(quotient, unitIndex, result, base, t)
  {
    var digits, units, trans := t.digits, t.units, t.trans;
    var result := result;
    var unitIndex := unitIndex;
    var remainder := GoRem(quotient, base);
    if remainder > 0 || unitIndex == 0 || (unitIndex == 1 && GoRem(quotient, 10) == 0) {
      if unitIndex == 1 && (remainder > 1 && remainder <= 3) {
        result := trans[remainder - 2] + result;
      } else {
        if remainder == 0 && unitIndex > 0 {
          result := digits[remainder] + result;
        } else if unitIndex / 4 > 1 {
          unitIndex := unitIndex % 4;
          if remainder >= |digits| {
            return Panic("index out of range");
          }
          result := digits[remainder] + (units[unitIndex % 4] + units[unitIndex]) + result;
        } else {
          if remainder >= |digits| || unitIndex >= |units| {
            return Panic("index out of range");
          }
          result := digits[remainder] + units[unitIndex] + result;
        }
      }
    }
    return Done((result, unitIndex));
  }

  /** ToChineseNumber: the table choice, |number|, the base check, the loop
    * place by place, then the sign, the zero case or the clean-up. */
  method ToChineseNumber(number: int, base: int, upper: bool) returns (r: Outcome<string>)
    requires base != 1 || number == 0
    ensures r == ChineseNumber(number, base, upper)
  {
    var t := NumeralsFor(upper);
    var digits := t.digits;
    var result := "";
    var quotient := Abs(number);
    if base > |digits| {
      return Done("");
    }
    ghost var raw := RawNumerals(number, base, upper);
    var unitIndex: nat := 0;
    assert Places(quotient, unitIndex, result, base, t) == raw;
    while quotient > 0
      invariant Places(quotient, unitIndex, result, base, t) == raw
      decreases quotient
    {
      if base == 0 {
        return Panic("integer divide by zero");
      }
      PlacesTurn(quotient, unitIndex, result, base, t);
      var step := Turn(quotient, unitIndex, result, base, t);
      if step.Panic? {
        return Panic(step.message);
      }
      QuoShrinks(quotient, base);
      result, unitIndex := step.value.0, step.value.1;
      quotient := GoQuo(quotient, base);
      unitIndex := unitIndex + 1;
    }
    assert raw == Done(result);
    LoopFinished(number, base, upper, result);
    if number < 0 {
      return Done("负" + result);
    } else if result == "" {
      return Done(digits[0]);
    } else {
      var cleaned := RemoveTrailingZero(result);
      return Done(cleaned);
    }
  }

  /** Once the loop has built its text, the sign and the clean-up decide
    * what ToChineseNumber returns. */
  lemma LoopFinished(number: int, base: int, upper: bool, result: string)
    requires base != 1 || number == 0
    requires base <= 10 && RawNumerals(number, base, upper) == Done(result)
    ensures ChineseNumber(number, base, upper) ==
      if number < 0 then Done("负" + result)
      else if result == "" then Done(NumeralsFor(upper).digits[0])
      else Done(TrailingZeroRemoved(result))
  {
  }

  /** For a non-zero number the two signs share the loop's text: the
    * negative is "负" before that text as it stands, the positive is the
    * same text with its trailing zeros removed. */
  lemma {:induction false} SignsShareDigits(n: int, base: int, upper: bool)
    requires n > 0 && base != 1 && base <= 10
    ensures ChineseNumber(-n, base, upper).Done? <==> ChineseNumber(n, base, upper).Done?
    ensures ChineseNumber(n, base, upper).Done? ==> exists raw ::
      ChineseNumber(-n, base, upper).value == "负" + raw && ChineseNumber(n, base, upper).value == TrailingZeroRemoved(raw)
  {
    var raw := RawNumerals(n, base, upper);
    assert RawNumerals(-n, base, upper) == raw;
    PlacesExtends(n, 0, "", base, NumeralsFor(upper));
    if raw.Done? {
      assert raw.value != "";
      assert ChineseNumber(n, base, upper).value == TrailingZeroRemoved(raw.value);
    }
  }

  /** Zero is 零 (or its financial twin, the same character) in every base
    * up to ten. */
  lemma ZeroIsLing(base: int, upper: bool)
    requires base <= 10
    ensures ChineseNumber(0, base, upper) == Done([Zero])
  {
  }

  /** A number below the base is its digit's character. */
  lemma SingleDigit(n: int, base: int, upper: bool)
    requires 0 < n < base <= 10
    ensures ChineseNumber(n, base, upper) == Done(NumeralsFor(upper).digits[n])
  {
    var t := NumeralsFor(upper);
    SingleDigitPlaces(n, base, t);
    SingleDigitKept(t.digits[n]);
  }

  lemma SingleDigitPlaces(n: int, base: int, t: Numerals)
    requires 0 < n < base <= 10 && t.Sized() && t.units[0] == ""
    ensures Places(n, 0, "", base, t) == Done(t.digits[n])
  {
    var d := t.digits[n];
    PlacesTurn(n, 0, "", base, t);
    QuoOfSmall(n, base);
    assert d + t.units[0] + "" == d;
    assert Places(0, 1, d, base, t) == Done(d);
  }

  lemma SingleDigitKept(d: string)
    requires d != [Zero] && |d| == 1
    ensures TrailingZeroRemoved(d) == d
  {
    assert d[|d| - 1..] == d;
  }

  /** Bases above ten give the empty text. */
  lemma BaseAboveTen(n: int, base: int, upper: bool)
    requires base > 10
    ensures ChineseNumber(n, base, upper) == Done("")
  {
  }

  /** Below base^(6 - unitIndex) the loop stays within the six place words
    * and never panics. */
  lemma {:induction false} PlacesNoPanic(quotient: int, unitIndex: nat, result: string, base: int, t: Numerals)
    requires 2 <= base <= 10 && t.Sized() && unitIndex <= 6
    requires 0 <= quotient < IntPow(base, 6 - unitIndex)
    ensures Places(quotient, unitIndex, result, base, t).Done?
    decreases quotient
  {
    if quotient > 0 {
      var next := PlaceBeforeSeventh(quotient, unitIndex, result, base, t);
      QuotientBelow(quotient, unitIndex, base);
      PlacesNoPanic(GoQuo(quotient, base), unitIndex + 1, next, base, t);
    }
  }

  /** Before the seventh place a turn never panics and keeps its counter. */
  lemma PlaceBeforeSeventh(quotient: int, unitIndex: nat, result: string, base: int, t: Numerals) returns (next: string)
    requires 2 <= base <= 10 && t.Sized() && unitIndex < 6 && quotient > 0
    ensures Places(quotient, unitIndex, result, base, t).Done? <==>
            Places(GoQuo(quotient, base), unitIndex + 1, next, base, t).Done?
  {
    var step := Place(quotient, unitIndex, result, base, t);
    assert step.Done? && step.value.1 == unitIndex;
    PlacesTurn(quotient, unitIndex, result, base, t);
    next := step.value.0;
  }

  /** One turn takes a quotient below base^(6 - unitIndex) to one below
    * base^(5 - unitIndex). */
  lemma QuotientBelow(quotient: int, unitIndex: nat, base: int)
    requires 2 <= base && unitIndex < 6 && 0 < quotient < IntPow(base, 6 - unitIndex)
    ensures 0 <= GoQuo(quotient, base)
    ensures GoQuo(quotient, base) < quotient
    ensures GoQuo(quotient, base) < IntPow(base, 5 - unitIndex)
  {
    QuoShrinks(quotient, base);
    var e: nat := 5 - unitIndex;
    var p := IntPow(base, e);
    assert IntPow(base, 6 - unitIndex) == base * p by {
      assert 6 - unitIndex == e + 1;
    }
    DivBelow(quotient, base, p);
    DivNonNegative(quotient, base);
  }

  /** Numbers of up to six places in bases two to ten never panic. */
  lemma BelowSixPlaces(n: int, base: int, upper: bool)
    requires 2 <= base <= 10 && -IntPow(base, 6) < n < IntPow(base, 6)
    ensures ChineseNumber(n, base, upper).Done?
  {
    PlacesNoPanic(Abs(n), 0, "", base, NumeralsFor(upper));
  }

  /** In base ten a place with a digit (or the units place) writes the
    * digit and the place word in front of the result. */
  lemma PlaceWritten(quotient: int, unitIndex: nat, result: string, t: Numerals)
    requires quotient > 0 && t.Sized() && unitIndex < 6
    requires quotient % 10 > 0 || unitIndex == 0
    requires !(unitIndex == 1 && 2 <= quotient % 10 <= 3)
    ensures Places(quotient, unitIndex, result, 10, t) ==
            Places(quotient / 10, unitIndex + 1, t.digits[quotient % 10] + t.units[unitIndex] + result, 10, t)
  {
    PlacesTurn(quotient, unitIndex, result, 10, t);
  }

  /** A two or a three at the tens is written 廿 or 卅 alone. */
  lemma TensContracted(quotient: int, result: string, t: Numerals)
    requires quotient > 0 && t.Sized() && 2 <= quotient % 10 <= 3
    ensures Places(quotient, 1, result, 10, t) ==
            Places(quotient / 10, 2, t.trans[quotient % 10 - 2] + result, 10, t)
  {
    PlacesTurn(quotient, 1, result, 10, t);
  }

  /** A zero at the tens still writes 零. */
  lemma TensZeroWritten(quotient: int, result: string, t: Numerals)
    requires quotient > 0 && t.Sized() && quotient % 10 == 0
    ensures Places(quotient, 1, result, 10, t) == Places(quotient / 10, 2, t.digits[0] + result, 10, t)
  {
    PlacesTurn(quotient, 1, result, 10, t);
  }

  /** A digit at the seventh place has no place word left. */
  lemma SeventhPlacePanics(quotient: int, result: string, t: Numerals)
    requires quotient > 0 && t.Sized() && quotient % 10 > 0
    ensures Places(quotient, 6, result, 10, t).Panic?
  {
    PlacesTurn(quotient, 6, result, 10, t);
  }

  /** A place whose digit is zero past the tens adds nothing. */
  lemma ZeroPlaceSkipped(quotient: int, unitIndex: nat, result: string, t: Numerals)
    requires quotient > 0 && quotient % 10 == 0 && unitIndex >= 2 && t.Sized()
    ensures Places(quotient, unitIndex, result, 10, t) == Places(quotient / 10, unitIndex + 1, result, 10, t)
  {
    PlacesTurn(quotient, unitIndex, result, 10, t);
  }

  /** At the seventh place the units table runs out: 1000000 in base ten
    * panics, so six places is the exact bound. */
  lemma MillionPanics(upper: bool)
    ensures ChineseNumber(1000000, 10, upper).Panic?
  {
    MillionPlaces(1000000, NumeralsFor(upper));
  }

  /** The loop on a million: 零 at the units and the tens, nothing at the
    * next four places, and no place word for the one at the seventh. */
  lemma MillionPlaces(n: int, t: Numerals)
    requires n == 1000000 && t.Sized()
    ensures Places(n, 0, "", 10, t).Panic?
  {
    var z := t.digits[0];
    ModUnique(n, 10, n / 10, 0);
    PlaceWritten(n, 0, "", t);
    var q := n / 10;
    ModUnique(q, 10, q / 10, 0);
    TensZeroWritten(q, z + "" + "", t);
    var zz := z + (z + "" + "");
    ZerosSkipped(q / 10, 2, zz, t);
  }

  /** Four zero places after the tens, then a one at the seventh place. */
  lemma ZerosSkipped(q: int, unitIndex: nat, result: string, t: Numerals)
    requires q == 10000 && unitIndex == 2 && t.Sized()
    ensures Places(q, unitIndex, result, 10, t).Panic?
  {
    var q1, q2, q3, q4 := 1000, 100, 10, 1;
    assert q / 10 == q1 && q1 / 10 == q2 && q2 / 10 == q3 && q3 / 10 == q4;
    ZeroPlaceSkipped(q, 2, result, t);
    ZeroPlaceSkipped(q1, 3, result, t);
    ZeroPlaceSkipped(q2, 4, result, t);
    ZeroPlaceSkipped(q3, 5, result, t);
    SeventhPlacePanics(q4, result, t);
  }

  /** How the tens place of a base-ten number is written: 零 for a zero,
    * 廿 or 卅 alone for a two or a three, otherwise the digit and 十. */
  function TensWord(d: int, t: Numerals): string
    requires 0 <= d <= 9 && t.Sized()
  {
    if d == 0 then t.digits[0]
    else if 2 <= d <= 3 then t.trans[d - 2]
    else t.digits[d] + t.units[1]
  }

  /** The tens place as the loop writes it, on top of the units' text. */
  lemma TensPlace(quotient: int, result: string, t: Numerals)
    requires 0 < quotient && t.Sized()
    ensures Places(quotient, 1, result, 10, t) ==
            Places(quotient / 10, 2, TensWord(quotient % 10, t) + result, 10, t)
  {
    var d := quotient % 10;
    if d == 0 {
      TensZeroWritten(quotient, result, t);
    } else if d <= 3 && d >= 2 {
      TensContracted(quotient, result, t);
    } else {
      PlaceWritten(quotient, 1, result, t);
    }
  }

  /** A two-digit number in base ten: the tens word, then the units digit
    * (零 for a zero, removed later by the clean-up). */
  lemma TwoDigitPlaces(n: int, t: Numerals)
    requires 10 <= n < 100 && t.Sized() && t.units[0] == ""
    ensures Places(n, 0, "", 10, t) == Done(TensWord(n / 10, t) + t.digits[n % 10])
  {
    var units := t.digits[n % 10];
    PlaceWritten(n, 0, "", t);
    assert units + t.units[0] + "" == units;
    ModUnique(n / 10, 10, 0, n / 10);
    TensPlace(n / 10, units, t);
  }

  /** A three-digit number in base ten: the hundreds digit and 百, the
    * tens word, then the units digit. */
  lemma ThreeDigitPlaces(n: int, t: Numerals)
    requires 100 <= n < 1000 && t.Sized() && t.units[0] == ""
    ensures Places(n, 0, "", 10, t) ==
            Done(t.digits[n / 100] + t.units[2] + TensWord(n / 10 % 10, t) + t.digits[n % 10])
  {
    var units := t.digits[n % 10];
    PlaceWritten(n, 0, "", t);
    assert units + t.units[0] + "" == units;
    var tens := TensWord(n / 10 % 10, t) + units;
    TensPlace(n / 10, units, t);
    var h := n / 10 / 10;
    assert h == n / 100 && 1 <= h <= 9;
    ModUnique(h, 10, 0, h);
    PlaceWritten(h, 2, tens, t);
    assert h / 10 == 0;
    assert t.digits[h % 10] + t.units[2] + tens ==
           t.digits[n / 100] + t.units[2] + TensWord(n / 10 % 10, t) + t.digits[n % 10];
  }

  /** The everyday characters the tests below meet. */
  lemma LowerNumerals()
    ensures var t := NumeralsFor(false);
      t.digits[0] == "零" && t.digits[1] == "一" && t.digits[2] == "二" && t.digits[3] == "三" &&
      t.units[0] == "" && t.units[1] == "十" && t.units[2] == "百" && t.trans[0] == "廿"
  {
  }

  /** A positive number whose loop text is a zero-free text followed by
    * zeros is written as that text. */
  lemma CleanedText(n: int, base: int, upper: bool, text: string, zeros: nat)
    requires n > 0 && 2 <= base <= 10 && Zero !in text && text != ""
    requires RawNumerals(n, base, upper) == Done(text + Repeat(Zero, zeros))
    ensures ChineseNumber(n, base, upper) == Done(text)
  {
    ZerosRemoved(text, zeros);
  }

  /** The conversion test's first case: -123 is 负一百廿三, with the
    * contraction 廿 for the twenty. */
  lemma MinusOneHundredTwentyThree(n: int)
    requires n == -123
    ensures ChineseNumber(n, 10, false) == Done("负一百廿三")
  {
    var raw := "一百廿三";
    assert RawNumerals(n, 10, false) == Done(raw) by {
      Raw123(-n);
      assert Abs(n) == -n;
    }
    assert "负" + raw == "负一百廿三" by {
      NegativeTexts(raw);
    }
    NegativeText(n, 10, false, raw);
  }

  /** A negative number is "负" before the loop's text, uncleaned. */
  lemma NegativeText(n: int, base: int, upper: bool, raw: string)
    requires n < 0 && 2 <= base <= 10 && RawNumerals(n, base, upper) == Done(raw)
    ensures ChineseNumber(n, base, upper) == Done("负" + raw)
  {
  }

  lemma NegativeTexts(raw: string)
    ensures raw == "一百廿三" ==> "负" + raw == "负一百廿三"
    ensures raw == "一十" + Repeat(Zero, 1) ==> "负" + raw == "负一十零"
  {
    assert Repeat(Zero, 1) == "零";
  }

  lemma Raw123(n: int)
    requires n == 123
    ensures Places(n, 0, "", 10, NumeralsFor(false)) == Done("一百廿三")
  {
    var t := NumeralsFor(false);
    LowerNumerals();
    ThreeDigitPlaces(n, t);
    var d2, d1, d0 := n / 100, n / 10 % 10, n % 10;
    assert d2 == 1 && d1 == 2 && d0 == 3;
    assert t.digits[d2] + t.units[2] == "一" + "百";
    assert TensWord(d1, t) == "廿";
    assert t.digits[d0] == "三";
    Texts123();
  }

  lemma Texts123()
    ensures "一" + "百" + "廿" + "三" == "一百廿三"
  {
  }

  /** 21 is 廿一. */
  lemma TwentyOne(n: int)
    requires n == 21
    ensures ChineseNumber(n, 10, false) == Done("廿一")
  {
    var text := "廿一";
    assert Zero !in text && text != "" by {
      ZeroFree(text);
    }
    assert RawNumerals(n, 10, false) == Done(text + Repeat(Zero, 0)) by {
      Raw21(n);
    }
    CleanedText(n, 10, false, text, 0);
  }

  lemma Raw21(n: int)
    requires n == 21
    ensures RawNumerals(n, 10, false) == Done("廿一" + Repeat(Zero, 0))
  {
    var t := NumeralsFor(false);
    LowerNumerals();
    TwoDigitPlaces(n, t);
    var d1, d0 := n / 10, n % 10;
    assert d1 == 2 && d0 == 1;
    assert TensWord(d1, t) == "廿";
    assert t.digits[d0] == "一";
    Texts21();
  }

  lemma Texts21()
    ensures "廿" + "一" == "廿一" + Repeat(Zero, 0)
  {
    assert Repeat(Zero, 0) == "";
  }

  /** 20 is 廿: the units' 零 is cleaned away. */
  lemma Twenty(n: int)
    requires n == 20
    ensures ChineseNumber(n, 10, false) == Done("廿")
  {
    var text := "廿";
    assert Zero !in text && text != "" by {
      ZeroFree(text);
    }
    assert RawNumerals(n, 10, false) == Done(text + Repeat(Zero, 1)) by {
      Raw20(n);
    }
    CleanedText(n, 10, false, text, 1);
  }

  lemma Raw20(n: int)
    requires n == 20
    ensures RawNumerals(n, 10, false) == Done("廿" + Repeat(Zero, 1))
  {
    var t := NumeralsFor(false);
    LowerNumerals();
    TwoDigitPlaces(n, t);
    var d1, d0 := n / 10, n % 10;
    assert d1 == 2 && d0 == 0;
    assert TensWord(d1, t) == "廿";
    assert t.digits[d0] == "零";
    Texts20();
  }

  lemma Texts20()
    ensures "廿" + "零" == "廿" + Repeat(Zero, 1)
  {
    assert Repeat(Zero, 1) == "零";
  }

  /** 100 is 一百: both zeros are cleaned away. */
  lemma OneHundred(n: int)
    requires n == 100
    ensures ChineseNumber(n, 10, false) == Done("一百")
  {
    var text := "一百";
    assert Zero !in text && text != "" by {
      ZeroFree(text);
    }
    assert RawNumerals(n, 10, false) == Done(text + Repeat(Zero, 2)) by {
      Raw100(n);
    }
    CleanedText(n, 10, false, text, 2);
  }

  lemma Raw100(n: int)
    requires n == 100
    ensures RawNumerals(n, 10, false) == Done("一百" + Repeat(Zero, 2))
  {
    var t := NumeralsFor(false);
    LowerNumerals();
    ThreeDigitPlaces(n, t);
    var d2, d1, d0 := n / 100, n / 10 % 10, n % 10;
    assert d2 == 1 && d1 == 0 && d0 == 0;
    assert t.digits[d2] + t.units[2] == "一" + "百";
    assert TensWord(d1, t) == "零";
    assert t.digits[d0] == "零";
    Texts100();
  }

  lemma Texts100()
    ensures "一" + "百" + "零" + "零" == "一百" + Repeat(Zero, 2)
  {
    assert Repeat(Zero, 2) == "零零";
  }

  /** 10 is 一十. */
  lemma Ten(n: int)
    requires n == 10
    ensures ChineseNumber(n, 10, false) == Done("一十")
  {
    var text := "一十";
    assert Zero !in text && text != "" by {
      ZeroFree(text);
    }
    assert RawNumerals(n, 10, false) == Done(text + Repeat(Zero, 1)) by {
      Raw10(n);
    }
    CleanedText(n, 10, false, text, 1);
  }

  /** The clean-up is skipped for negatives: -10 keeps its 零 while 10
    * loses it. */
  lemma MinusTen(n: int)
    requires n == -10
    ensures ChineseNumber(n, 10, false) == Done("负一十零")
  {
    var raw := "一十" + Repeat(Zero, 1);
    assert RawNumerals(n, 10, false) == Done(raw) by {
      Raw10(-n);
    }
    assert "负" + raw == "负一十零" by {
      NegativeTexts(raw);
    }
    NegativeText(n, 10, false, raw);
  }

  lemma Raw10(n: int)
    requires n == 10
    ensures RawNumerals(n, 10, false) == Done("一十" + Repeat(Zero, 1))
    ensures RawNumerals(-n, 10, false) == Done("一十" + Repeat(Zero, 1))
  {
    var t := NumeralsFor(false);
    LowerNumerals();
    TwoDigitPlaces(n, t);
    var d1, d0 := n / 10, n % 10;
    assert d1 == 1 && d0 == 0;
    assert TensWord(d1, t) == "一" + "十";
    assert t.digits[d0] == "零";
    TenTexts();
  }

  /** The cleaned texts of the examples hold no 零. */
  lemma ZeroFree(text: string)
    requires text == "一十" || text == "廿" || text == "廿一" || text == "一百"
    ensures Zero !in text && text != ""
  {
    assert forall i :: 0 <= i < |text| ==> text[i] != Zero;
  }

  lemma TenTexts()
    ensures "一" + "十" + "零" == "一十" + Repeat(Zero, 1)
  {
    assert Repeat(Zero, 1) == "零";
  }
}
