/** convert.go: reading a number written positionally in a base, with the
  * digit symbols "0-9A-Za-z-$". Go's `int` is modelled as an unbounded
  * integer. */
module Convert {
  import opened Outcomes
  import opened GoStrings
  import opened DivMod

  /** The 64 digit symbols, lowest first. */
  const Symbols: string := Decimals + Uppers + Lowers + "-$"

  const Decimals: string := "0123456789"
  const Uppers: string := "ABCDEFGHIJKLMNOPQRSTUVWXYZ"
  const Lowers: string := "abcdefghijklmnopqrstuvwxyz"

  /** The symbol for digit value k, by arithmetic on code points. */
  function SymbolChar(k: int): char
    requires 0 <= k < 64
  {
    if k < 10 then ('0' as int + k) as char
    else if k < 36 then ('A' as int + k - 10) as char
    else if k < 62 then ('a' as int + k - 36) as char
    else if k == 62 then '-'
    else '$'
  }

  lemma SymbolsChars()
    ensures |Symbols| == 64
    ensures forall k :: 0 <= k < 64 ==> Symbols[k] == SymbolChar(k)
  {
    assert forall k :: 0 <= k < 10 ==> Decimals[k] as int == '0' as int + k;
    assert forall k :: 0 <= k < 26 ==> Uppers[k] as int == 'A' as int + k;
    assert forall k :: 0 <= k < 26 ==> Lowers[k] as int == 'a' as int + k;
    forall k | 0 <= k < 64 ensures Symbols[k] == SymbolChar(k) {
      if k < 10 {
        assert Symbols[k] == Decimals[k];
      } else if k < 36 {
        assert Symbols[k] == Uppers[k - 10];
      } else if k < 62 {
        assert Symbols[k] == Lowers[k - 36];
      }
    }
  }

  /** No symbol appears twice. */
  lemma SymbolsDistinct(j: int, k: int)
    requires 0 <= j < k < 64
    ensures Symbols[j] != Symbols[k]
  {
    SymbolsChars();
  }

  /** The position of the first element equal to ele, or -1. */
  function FirstIndex<T(==)>(slice: seq<T>, ele: T): (r: int)
    ensures -1 <= r < |slice|
    ensures r == -1 <==> ele !in slice
    ensures r >= 0 ==> slice[r] == ele && forall k :: 0 <= k < r ==> slice[k] != ele
  {
    if slice == [] then -1
    else if slice[0] == ele then 0
    else
      var r := FirstIndex(slice[1..], ele);
      assert forall k :: 1 <= k < |slice| ==> slice[k] == slice[1..][k - 1];
      if r == -1 then -1 else r + 1
  }

  /** indexOf: walk the slice and return at the first match. */
  method IndexOf(slice: seq<string>, ele: string) returns (r: int)
    ensures r == FirstIndex(slice, ele)
  {
    for k := 0 to |slice|
      invariant ele !in slice[..k]
    {
      if slice[k] == ele {
        return k;
      }
      assert slice[..k + 1] == slice[..k] + [slice[k]];
    }
    assert slice[..|slice|] == slice;
    return -1;
  }

  /** strings.Split(Symbols, ""): one string per symbol. */
  function SymbolSlice(): (slice: seq<string>)
    ensures |slice| == 64 && forall k :: 0 <= k < 64 ==> slice[k] == [Symbols[k]]
  {
    Split(Symbols, "")
  }

  /** stringToNumberCallback: the position of the text in the symbol table,
    * or -1 when it is absent or when the position exceeds the base. */
  function StringToNumberCallback(digits: string, base: int): (r: int)
    ensures r == -1 || (0 <= r <= base && r < 64 && digits == [Symbols[r]])
  {
    var index := FirstIndex(SymbolSlice(), digits);
    if index > base then -1 else index
  }

  /** The callback on one symbol: its position when that is at most the
    * base (the base itself included), -1 above; -1 for any text that is not
    * a single symbol. */
  lemma CallbackOfSymbol(k: int, base: int)
    requires 0 <= k < 64
    ensures StringToNumberCallback([Symbols[k]], base) == if k <= base then k else -1
  {
    var slice := SymbolSlice();
    forall j | 0 <= j < k ensures slice[j] != [Symbols[k]] {
      SymbolsDistinct(j, k);
      assert slice[j][0] == Symbols[j];
    }
  }

  lemma CallbackOfOther(c: char, base: int)
    requires c !in Symbols
    ensures StringToNumberCallback([c], base) == -1
  {
    var slice := SymbolSlice();
    assert forall k :: 0 <= k < 64 ==> slice[k][0] == Symbols[k];
  }

  /** numberToStringCallback: the symbol at the remainder, an empty unit and
    * the table's length; a remainder outside the table panics. */
  function NumberToStringCallback(remainder: int, unit: int): (r: Outcome<(string, string, int)>)
    ensures r.Done? <==> 0 <= remainder < 64
    ensures r.Done? ==> r.value == ([Symbols[remainder]], "", 64)
  {
    var slice := SymbolSlice();
    if 0 <= remainder < |slice| then Done((slice[remainder], "", |slice|))
    else Panic("index out of range")
  }

  /** The value of vals[i..] read positionally: digit j weighs
    * base^(n - 1 - j). */
  function ValueFrom(vals: seq<int>, base: int, i: nat): int
    requires i <= |vals|
    decreases |vals| - i
  {
    if i == |vals| then 0 else vals[i] * IntPow(base, |vals| - 1 - i) + ValueFrom(vals, base, i + 1)
  }

  /** The digit values the callback gives for the symbols of a text. */
  function DigitValues(numberic: string, base: int, callback: (string, int) -> int): (vals: seq<int>)
    ensures |vals| == |numberic|
    ensures forall k :: 0 <= k < |numberic| ==> vals[k] == callback([numberic[k]], base)
  {
    seq(|numberic|, k requires 0 <= k < |numberic| => callback([numberic[k]], base))
  }

  /** The callback StringToNumber uses: the one given, or the table lookup
    * when it is nil. */
  function CallbackOrDefault(callback: Option<(string, int) -> int>): (string, int) -> int
  {
    if callback.Some? then callback.value else StringToNumberCallback
  }

  /** The base StringToNumber uses: 10 when it is 0. */
  function BaseOrDefault(base: int): int
  {
    if base == 0 then 10 else base
  }

  /** What StringToNumber returns for these digit values: 0 when one of them
    * exceeds the base, the positional value otherwise. */
  function NumberOf(vals: seq<int>, base: int): int
  {
    if exists k :: 0 <= k < |vals| && vals[k] > base then 0 else ValueFrom(vals, base, 0)
  }

  /** One step of the loop, from the right: digit i - 1 joins the value. */
  lemma ValueStep(vals: seq<int>, base: int, i: nat, power: int, power': int)
    requires 1 <= i <= |vals| && power == IntPow(base, |vals| - i) && power' == power * base
    ensures ValueFrom(vals, base, i - 1) == vals[i - 1] * power + ValueFrom(vals, base, i)
    ensures power' == IntPow(base, |vals| - (i - 1))
  {
  }

  /** StringToNumber: split the text into symbols and, from the last to the
    * first, add value times power and multiply the power by the base. A
    * value above the base ends the loop with 0. */
  method StringToNumber(numberic: string, base: int, callback: Option<(string, int) -> int>) returns (result: int)
    ensures result == NumberOf(DigitValues(numberic, BaseOrDefault(base), CallbackOrDefault(callback)), BaseOrDefault(base))
  {
    var cb := CallbackOrDefault(callback);
    var b := BaseOrDefault(base);
    ghost var vals := DigitValues(numberic, b, cb);
    result := 0;
    var power := 1;
    var nums := Split(numberic, "");
    var i := |nums|;
    while i > 0
      invariant 0 <= i <= |vals|
      invariant power == IntPow(b, |vals| - i)
      invariant result == ValueFrom(vals, b, i)
      invariant forall k :: i <= k < |vals| ==> vals[k] <= b
      decreases i
    {
      var val := cb(nums[i - 1], b);
      if val > b {
        assert vals[i - 1] > b;
        return 0;
      }
      ValueStep(vals, b, i, power, power * b);
      result := result + val * power;
      power := power * b;
      i := i - 1;
    }
  }

  /** The positional value read from the left (Horner's rule): each digit
    * shifts what came before by one place. */
  function Horner(vals: seq<int>, base: int): int
  {
    if vals == [] then 0 else Horner(vals[..|vals| - 1], base) * base + vals[|vals| - 1]
  }

  /** Reading from the right with powers is reading from the left by
    * shifting: both give the positional value. */
  lemma {:induction false} ValueFromHorner(vals: seq<int>, base: int)
    ensures ValueFrom(vals, base, 0) == Horner(vals, base)
    decreases |vals|
  {
    if vals != [] {
      var init := vals[..|vals| - 1];
      ValueFromHorner(init, base);
      ValueFromShift(vals, base, 0);
    }
  }

  /** Dropping the last digit: every other digit weighs one power less. */
  lemma {:induction false} ValueFromShift(vals: seq<int>, base: int, i: nat)
    requires i < |vals|
    ensures ValueFrom(vals, base, i) == ValueFrom(vals[..|vals| - 1], base, i) * base + vals[|vals| - 1]
    decreases |vals| - i
  {
    var init := vals[..|vals| - 1];
    if i < |vals| - 1 {
      ValueFromShift(vals, base, i + 1);
      var p := IntPow(base, |init| - 1 - i);
      assert IntPow(base, |vals| - 1 - i) == p * base;
      assert init[i] == vals[i];
      calc {
        ValueFrom(vals, base, i);
        vals[i] * (p * base) + ValueFrom(vals, base, i + 1);
        vals[i] * (p * base) + (ValueFrom(init, base, i + 1) * base + vals[|vals| - 1]);
        { assert vals[i] * (p * base) == (vals[i] * p) * base; }
        (vals[i] * p + ValueFrom(init, base, i + 1)) * base + vals[|vals| - 1];
      }
    }
  }

  lemma MulMono(a: int, b: int, c: int)
    requires a <= b && c >= 0
    ensures a * c <= b * c
  {
    MulNonPositive(c, a - b);
    assert c * (a - b) == a * c - b * c;
  }

  /** Digits in [0, base) give a value in [0, base^n). */
  lemma {:induction false} HornerBound(vals: seq<int>, base: int)
    requires base >= 1 && forall k :: 0 <= k < |vals| ==> 0 <= vals[k] < base
    ensures 0 <= Horner(vals, base) < IntPow(base, |vals|)
    decreases |vals|
  {
    if vals != [] {
      var init := vals[..|vals| - 1];
      HornerBound(init, base);
      var h, p, d := Horner(init, base), IntPow(base, |init|), vals[|vals| - 1];
      HornerStepBound(h, p, d, base);
      assert Horner(vals, base) == h * base + d;
      assert IntPow(base, |vals|) == base * p;
    }
  }

  lemma HornerStepBound(h: int, p: int, d: int, base: int)
    requires 0 <= h < p && 0 <= d < base
    ensures 0 <= h * base + d < base * p
  {
    MulMono(h + 1, p, base);
    MulMono(0, h, base);
    assert (h + 1) * base == h * base + base;
    assert p * base == base * p;
  }

  /** With no digit above the base, StringToNumber's value is the
    * positional one. */
  lemma NumberOfHorner(vals: seq<int>, base: int)
    requires forall k :: 0 <= k < |vals| ==> vals[k] <= base
    ensures NumberOf(vals, base) == Horner(vals, base)
  {
    ValueFromHorner(vals, base);
  }

  /** The callback reads a text of symbols as their positions. */
  lemma SymbolValues(s: string, base: int, ks: seq<int>)
    requires |ks| == |s|
    requires forall i :: 0 <= i < |s| ==> 0 <= ks[i] <= base && ks[i] < 64 && s[i] == Symbols[ks[i]]
    ensures DigitValues(s, base, StringToNumberCallback) == ks
  {
    forall i | 0 <= i < |s| ensures StringToNumberCallback([s[i]], base) == ks[i] {
      CallbackOfSymbol(ks[i], base);
    }
  }

  lemma LeadingSymbols()
    ensures Symbols[0] == '0' && Symbols[1] == '1' && Symbols[2] == '2' && Symbols[3] == '3'
    ensures Symbols[10] == 'A'
  {
    assert Symbols[..10] == Decimals;
    assert Symbols[10] == Uppers[0];
  }

  /** The conversion test: "30000" in base 10 is 30000. */
  lemma ThirtyThousand()
    ensures NumberOf(DigitValues("30000", 10, StringToNumberCallback), 10) == 30000
  {
    ThirtyThousandDigits();
    NumberOfHorner([3, 0, 0, 0, 0], 10);
    HornerThirtyThousand();
  }

  lemma ThirtyThousandDigits()
    ensures DigitValues("30000", 10, StringToNumberCallback) == [3, 0, 0, 0, 0]
  {
    LeadingSymbols();
    SymbolValues("30000", 10, [3, 0, 0, 0, 0]);
  }

  /** One more digit at the end shifts the value and adds the digit. */
  lemma HornerSnoc(vals: seq<int>, d: int, base: int)
    ensures Horner(vals + [d], base) == Horner(vals, base) * base + d
  {
    assert (vals + [d])[..|vals|] == vals;
  }

  lemma HornerThirtyThousand()
    ensures Horner([3, 0, 0, 0, 0], 10) == 30000
  {
    HornerSnoc([], 3, 10);
    assert [] + [3] == [3];
    HornerSnoc([3], 0, 10);
    assert [3] + [0] == [3, 0];
    HornerSnoc([3, 0], 0, 10);
    assert [3, 0] + [0] == [3, 0, 0];
    HornerSnoc([3, 0, 0], 0, 10);
    assert [3, 0, 0] + [0] == [3, 0, 0, 0];
    HornerSnoc([3, 0, 0, 0], 0, 10);
    assert [3, 0, 0, 0] + [0] == [3, 0, 0, 0, 0];
  }

  /** Two digits read positionally. */
  lemma HornerTwo(d0: int, d1: int, base: int)
    ensures Horner([d0, d1], base) == d0 * base + d1
  {
    assert [d0, d1][..1] == [d0];
    assert [d0][..0] == [];
    assert Horner([d0], base) == Horner([], base) * base + d0;
  }

  /** A character outside the three ranges and not '-' or '$' is not a
    * symbol. */
  lemma NotSymbol(c: char)
    requires !('0' <= c <= '9') && !('A' <= c <= 'Z') && !('a' <= c <= 'z') && c != '-' && c != '$'
    ensures c !in Symbols
  {
    SymbolsChars();
    forall k | 0 <= k < 64 ensures Symbols[k] != c {
      assert Symbols[k] == SymbolChar(k);
    }
  }

  /** As written, the digit equal to the base is accepted: "A" in base 10
    * reads as 10, so "1A" reads as 20. */
  lemma DigitEqualToBase()
    ensures NumberOf(DigitValues("1A", 10, StringToNumberCallback), 10) == 20
  {
    LeadingSymbols();
    SymbolValues("1A", 10, [1, 10]);
    NumberOfHorner([1, 10], 10);
    HornerTwo(1, 10, 10);
  }

  /** "20" reads as 20 too: two texts, one number. */
  lemma TwentyIsTwenty()
    ensures NumberOf(DigitValues("20", 10, StringToNumberCallback), 10) == 20
  {
    LeadingSymbols();
    SymbolValues("20", 10, [2, 0]);
    NumberOfHorner([2, 0], 10);
    HornerTwo(2, 0, 10);
  }

  /** As written, a symbol outside the table counts as the digit -1: "1?"
    * reads as 9. */
  lemma UnknownSymbolIsMinusOne()
    ensures NumberOf(DigitValues("1?", 10, StringToNumberCallback), 10) == 9
  {
    UnknownSymbolDigits();
    NumberOfHorner([1, -1], 10);
    HornerTwo(1, -1, 10);
  }

  lemma UnknownSymbolDigits()
    ensures DigitValues("1?", 10, StringToNumberCallback) == [1, -1]
  {
    LeadingSymbols();
    CallbackOfSymbol(1, 10);
    NotSymbol('?');
    CallbackOfOther('?', 10);
    var u := DigitValues("1?", 10, StringToNumberCallback);
    assert u[0] == 1 && u[1] == -1;
  }

  /** The evidently intended table lookup: -1 unless the symbol is a digit
    * of the base. */
  function DigitOf(digits: string, base: int): (r: int)
    ensures r == -1 || (0 <= r < base && r < 64 && digits == [Symbols[r]])
  {
    var index := FirstIndex(SymbolSlice(), digits);
    if index >= base then -1 else index
  }

  /** The intended lookup on one symbol: its position when that is a digit
    * of the base, -1 from the base up. */
  lemma DigitOfSymbol(k: int, base: int)
    requires 0 <= k < 64
    ensures DigitOf([Symbols[k]], base) == if k < base then k else -1
  {
    var slice := SymbolSlice();
    forall j | 0 <= j < k ensures slice[j] != [Symbols[k]] {
      SymbolsDistinct(j, k);
      assert slice[j][0] == Symbols[j];
    }
  }

  /** The evidently intended result: 0 when a digit value falls outside
    * [0, base), the positional value otherwise. */
  function NumberOfChecked(vals: seq<int>, base: int): int
  {
    if exists k :: 0 <= k < |vals| && (vals[k] < 0 || vals[k] >= base) then 0 else Horner(vals, base)
  }

  /** With every digit valid, the checked result is the positional value,
    * within [0, base^n). */
  lemma CheckedValue(vals: seq<int>, base: int)
    requires base >= 1 && forall k :: 0 <= k < |vals| ==> 0 <= vals[k] < base
    ensures NumberOfChecked(vals, base) == ValueFrom(vals, base, 0)
    ensures 0 <= NumberOfChecked(vals, base) < IntPow(base, |vals|)
  {
    ValueFromHorner(vals, base);
    HornerBound(vals, base);
  }

  /** The checked reading: what StringToNumberChecked returns for a text. */
  function CheckedReading(numberic: string, base: int, callback: Option<(string, int) -> int>): int
  {
    NumberOfChecked(DigitValues(numberic, BaseOrDefault(base), CheckedCallback(callback)), BaseOrDefault(base))
  }

  /** The callback the checked reading uses: the one given, or DigitOf. */
  function CheckedCallback(callback: Option<(string, int) -> int>): (string, int) -> int
  {
    if callback.Some? then callback.value else DigitOf
  }

  /** The intended lookup reads a text of symbols as their positions, -1
    * for a symbol at or above the base. */
  lemma CheckedValues(s: string, base: int, ks: seq<int>)
    requires |ks| == |s|
    requires forall i :: 0 <= i < |s| ==> 0 <= ks[i] < 64 && s[i] == Symbols[ks[i]]
    ensures forall i :: 0 <= i < |s| ==>
      DigitValues(s, base, DigitOf)[i] == if ks[i] < base then ks[i] else -1
  {
    forall i | 0 <= i < |s| ensures DigitOf([s[i]], base) == if ks[i] < base then ks[i] else -1 {
      DigitOfSymbol(ks[i], base);
    }
  }

  /** Corrected, "1A" in base 10 is rejected. */
  lemma CheckedRejectsDigitEqualToBase()
    ensures CheckedReading("1A", 10, None) == 0
  {
    LeadingSymbols();
    CheckedValues("1A", 10, [1, 10]);
    assert DigitValues("1A", 10, DigitOf)[1] == -1;
  }

  /** Corrected, "20" in base 10 still reads as 20. */
  lemma CheckedTwenty()
    ensures CheckedReading("20", 10, None) == 20
  {
    LeadingSymbols();
    CheckedValues("20", 10, [2, 0]);
    var v := DigitValues("20", 10, DigitOf);
    assert v == [2, 0];
    HornerTwo(2, 0, 10);
  }

  /** StringToNumber with the intended check: a value outside [0, base)
    * ends the loop with 0. */
  method StringToNumberChecked(numberic: string, base: int, callback: Option<(string, int) -> int>) returns (result: int)
    ensures result == CheckedReading(numberic, base, callback)
  {
    var cb := CheckedCallback(callback);
    var b := BaseOrDefault(base);
    ghost var vals := DigitValues(numberic, b, cb);
    result := 0;
    var power := 1;
    var nums := Split(numberic, "");
    var i := |nums|;
    while i > 0
      invariant 0 <= i <= |vals|
      invariant power == IntPow(b, |vals| - i)
      invariant result == ValueFrom(vals, b, i)
      invariant forall k :: i <= k < |vals| ==> 0 <= vals[k] < b
      decreases i
    {
      var val := cb(nums[i - 1], b);
      if val < 0 || val >= b {
        CheckedInvalid(vals, b, i - 1);
        return 0;
      }
      ValueStep(vals, b, i, power, power * b);
      result := result + val * power;
      power := power * b;
      i := i - 1;
    }
    CheckedAllValid(vals, b);
  }

  /** One digit outside [0, base) makes the checked result 0. */
  lemma CheckedInvalid(vals: seq<int>, base: int, k: nat)
    requires k < |vals| && !(0 <= vals[k] < base)
    ensures NumberOfChecked(vals, base) == 0
  {
  }

  /** With every digit in [0, base) the checked result is the positional
    * value. */
  lemma CheckedAllValid(vals: seq<int>, base: int)
    requires forall k :: 0 <= k < |vals| ==> 0 <= vals[k] < base
    ensures NumberOfChecked(vals, base) == ValueFrom(vals, base, 0)
  {
    ValueFromHorner(vals, base);
  }
}
