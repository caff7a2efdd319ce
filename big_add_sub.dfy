/** The carry loop of `add` and the borrow loop of `Sub` in bigNumber.go.
  * Both walk the two texts that normalizeDecimal produced from the right,
  * skip the separator, and write one symbol per column in front of the
  * result. Each is proved to write the representation of a number fixed by
  * the inputs: the sum of the two digit values, and the difference modulo
  * base^columns. */
module BigAddSub {
  import opened GoStrings
  import opened BigDigits
  import opened BigNumbers

  /** What the column loops need of the receiver's configuration: a base of
    * at least two (base 1 never ends the carry loop, base 0 divides by zero)
    * and no larger than the alphabet (toNumber), and a separator other than
    * the "0" that pads fractions. */
  predicate LoopConfig(c: Config)
  {
    2 <= c.base <= |c.alphabet| && c.decimalSeparator != '0'
  }

  /** The number of fraction symbols both operands are padded to. */
  function CommonPlaces(c: Config, a: BigNumber, b: BigNumber): nat
  {
    Max(|FracPart(c, a.value)|, |FracPart(c, b.value)|)
  }

  /** The symbols of `v` as normalizeDecimal pads it, separator dropped. */
  function PaddedDigits(c: Config, v: string, f: nat): string
    requires f >= |FracPart(c, v)|
  {
    IntPart(c, v) + (FracPart(c, v) + Repeat('0', f - |FracPart(c, v)|))
  }

  /** `num` is the digit string `d` with the separator put back after its
    * first `n` symbols, and the separator occurs nowhere else. */
  predicate Layout(num: string, d: string, n: nat, f: nat, sep: char)
  {
    |d| == n + f && num == d[..n] + [sep] + d[n..] && sep !in d
  }

  /** normalizeDecimal's text for `v` is its padded digits with the
    * separator put back after the integer part, and the separator occurs
    * nowhere else. */
  lemma PaddedLayout(c: Config, v: string, f: nat)
    requires f >= |FracPart(c, v)| && c.decimalSeparator != '0'
    ensures Layout(PadFraction(c, v, f), PaddedDigits(c, v, f), |IntPart(c, v)|, f, c.decimalSeparator)
  {
    var ip, fp, z := IntPart(c, v), FracPart(c, v), Repeat('0', f - |FracPart(c, v)|);
    var d := ip + (fp + z);
    assert d[..|ip|] == ip && d[|ip|..] == fp + z;
    assert c.decimalSeparator !in z;
  }

  // ---------------------------------------------------------------------
  // add

  /** The two digits of column t (counted from the right, 0 past the end of
    * a string), each read in its own alphabet. */
  function ColumnDigits(a1: string, a2: string, d1: string, d2: string, t: nat): nat
  {
    DigitAt(a1, d1, t) + DigitAt(a2, d2, t)
  }

  /** The value of two digit strings added, the second read in its own
    * alphabet. */
  function SumValue(a1: string, a2: string, base: nat, d1: string, d2: string): nat
  {
    Val(a1, base, d1) + Val(a2, base, d2)
  }

  /** The symbols the carry loop of `add` writes: the sum of both padded
    * digit strings (the second read in its own alphabet) in the receiver's
    * base, on as many symbols as the longer string and more for a final
    * carry. */
  function SumDigits(a: BigNumber, b: BigNumber): string
    requires 2 <= a.format.base <= |a.format.alphabet|
  {
    var c := a.format;
    var f := CommonPlaces(c, a, b);
    var d1, d2 := PaddedDigits(c, a.value, f), PaddedDigits(c, b.value, f);
    var s := SumValue(c.alphabet, b.format.alphabet, c.base, d1, d2);
    Represent(c.alphabet, c.base, s, Width(c.base, s, Max(|d1|, |d2|)))
  }

  /** `add`: the summed symbols, the separator put back when either operand
    * has one, "0"s trimmed in front, then NewBigNumber. */
  function AddResult(a: BigNumber, b: BigNumber): BigNumber
    requires LoopConfig(a.format)
  {
    var sep := a.format.decimalSeparator;
    var digits := SumDigits(a, b);
    var text := if sep in a.value || sep in b.value
      then InsertDecimalPoint(digits, CommonPlaces(a.format, a, b), sep) else digits;
    NewBigNumber(TrimLeft(text, '0'))
  }

  /** `add` as written: normalizeDecimal, the carry loop, the separator put
    * back, "0"s trimmed in front, NewBigNumber. */
  method Add(a: BigNumber, b: BigNumber) returns (r: BigNumber)
    requires LoopConfig(a.format)
    ensures r == AddResult(a, b)
  {
    var c := a.format;
    var sep := c.decimalSeparator;
    var num1, num2 := NormalizeDecimal(a.value, b.value, sep).0, NormalizeDecimal(a.value, b.value, sep).1;
    var decPlaces := 0;
    var hasDecimal := sep in a.value || sep in b.value;
    if hasDecimal {
      decPlaces := Max(|SplitDecimal(a.value, sep).1|, |SplitDecimal(b.value, sep).1|);
    }
    ghost var f := CommonPlaces(c, a, b);
    NormalizeDecimalParts(c, a.value, b.value);
    PaddedLayout(c, a.value, f);
    PaddedLayout(c, b.value, f);
    var result := CarryLoop(c.alphabet, b.format.alphabet, c.base, sep, num1, num2,
      PaddedDigits(c, a.value, f), PaddedDigits(c, b.value, f), |IntPart(c, a.value)|, |IntPart(c, b.value)|, f);
    if hasDecimal {
      result := InsertDecimalPoint(result, decPlaces, sep);
    }
    r := NewBigNumber(TrimLeft(result, '0'));
  }

  /** The loop of `add`: from the right, skipping the separator, each column
    * writes (digit1 + digit2 + carry) % base in front and carries the
    * quotient, until both texts and the carry are used up. */
  method CarryLoop(alphabet1: string, alphabet2: string, base: nat, sep: char, num1: string, num2: string,
                   ghost d1: string, ghost d2: string, ghost n1: nat, ghost n2: nat, ghost f: nat)
    returns (result: string)
    requires 2 <= base <= |alphabet1|
    requires Layout(num1, d1, n1, f, sep) && Layout(num2, d2, n2, f, sep)
    ensures var s := SumValue(alphabet1, alphabet2, base, d1, d2);
      result == Represent(alphabet1, base, s, Width(base, s, Max(|d1|, |d2|)))
  {
    var i, j := |num1| - 1, |num2| - 1;
    var carry: nat := 0;
    result := "";
    ghost var m := Max(|d1|, |d2|);
    ghost var passed := false;
    ghost var t: nat := 0;
    ghost var total := CarryOut(alphabet1, alphabet2, base, d1, d2, m, 0, 0);
    while i >= 0 || j >= 0 || carry > 0
      invariant Cursor(i, n1, f, t, passed) && Cursor(j, n2, f, t, passed)
      invariant CarryOut(alphabet1, alphabet2, base, d1, d2, m, t, carry) + result == total
      decreases i + j + 2, carry
    {
      CursorBounds(num1, d1, n1, f, sep, i, t, passed);
      CursorBounds(num2, d2, n2, f, sep, j, t, passed);
      ghost var i0, j0, t0, carry0, result0 := i, j, t, carry, result;
      if i >= 0 && num1[i] == sep {
        i, j := i - 1, j - 1;
        SkipSeparator(num1, num2, d1, d2, n1, n2, f, sep, i0, j0, t, passed, i, j);
        passed := true;
        continue;
      }
      ReadColumn(alphabet1, alphabet2, num1, num2, d1, d2, n1, n2, f, sep, i, j, t, passed);
      var digit1 := if i >= 0 then Digit(alphabet1, num1[i]) else 0;
      var digit2 := if j >= 0 then Digit(alphabet2, num2[j]) else 0;
      i := if i >= 0 then i - 1 else i;
      j := if j >= 0 then j - 1 else j;
      var sum := digit1 + digit2 + carry;
      carry := Quot(sum, base);
      result := [ToNumber(alphabet1, Rem(sum, base))] + result;
      t := t + 1;
      CarryOutStep(alphabet1, alphabet2, base, d1, d2, m, t0, carry0, sum, result0, total, t, carry, result);
      AdvanceCursors(num1, num2, d1, d2, n1, n2, f, sep, i0, j0, t0, passed, i, j, t);
    }
    CursorBounds(num1, d1, n1, f, sep, i, t, passed);
    CursorBounds(num2, d2, n2, f, sep, j, t, passed);
    CarryOutTotal(alphabet1, alphabet2, base, d1, d2);
  }

  /** The symbols the columns from t on still write, given the carry into
    * column t: the carry loop unrolled. */
  function CarryOut(a1: string, a2: string, base: nat, d1: string, d2: string, m: nat, t: nat, carry: nat): string
    requires 2 <= base <= |a1| && |d1| <= m && |d2| <= m
    decreases Remaining(m, t), carry
  {
    if t >= m && carry == 0 then []
    else
      var sum := ColumnDigits(a1, a2, d1, d2, t) + carry;
      CarryOut(a1, a2, base, d1, d2, m, t + 1, Quot(sum, base)) + [ToNumber(a1, Rem(sum, base))]
  }

  /** The columns left from t on, out of m. */
  function Remaining(m: nat, t: nat): nat
  {
    if t < m then m - t else 0
  }

  /** One column of the loop unrolls CarryOut once: the symbol it writes
    * moves from what is still to come to the front of what is written. */
  lemma CarryOutStep(a1: string, a2: string, base: nat, d1: string, d2: string, m: nat, t: nat, carry: nat,
                     sum: nat, written: string, total: string, t': nat, carry': nat, written': string)
    requires 2 <= base <= |a1| && |d1| <= m && |d2| <= m
    requires t < m || carry > 0
    requires sum == ColumnDigits(a1, a2, d1, d2, t) + carry
    requires CarryOut(a1, a2, base, d1, d2, m, t, carry) + written == total
    requires t' == t + 1 && carry' == Quot(sum, base) && written' == [ToNumber(a1, Rem(sum, base))] + written
    ensures CarryOut(a1, a2, base, d1, d2, m, t', carry') + written' == total
  {
    AppendAssoc(CarryOut(a1, a2, base, d1, d2, m, t + 1, Quot(sum, base)), [ToNumber(a1, Rem(sum, base))], written);
  }

  /** The value of the columns from t on: column t plus base times the
    * columns above it. */
  function Upper(a1: string, a2: string, base: nat, d1: string, d2: string, m: nat, t: nat): nat
    decreases Remaining(m, t)
  {
    if t >= m then 0
    else ColumnDigits(a1, a2, d1, d2, t) + Upper(a1, a2, base, d1, d2, m, t + 1) * base
  }

  /** The columns from t on hold both strings without their last t symbols. */
  lemma {:induction false} UpperValue(a1: string, a2: string, base: nat, d1: string, d2: string, m: nat, t: nat)
    requires |d1| <= m && |d2| <= m
    ensures Upper(a1, a2, base, d1, d2, m, t) == Val(a1, base, Prefix(d1, t)) + Val(a2, base, Prefix(d2, t))
    decreases Remaining(m, t)
  {
    if t < m {
      UpperValue(a1, a2, base, d1, d2, m, t + 1);
      PrefixStep(a1, base, d1, t);
      PrefixStep(a2, base, d2, t);
      Combine(Upper(a1, a2, base, d1, d2, m, t), Upper(a1, a2, base, d1, d2, m, t + 1),
        DigitAt(a1, d1, t), DigitAt(a2, d2, t),
        Val(a1, base, Prefix(d1, t)), Val(a1, base, Prefix(d1, t + 1)),
        Val(a2, base, Prefix(d2, t)), Val(a2, base, Prefix(d2, t + 1)), base);
    }
  }

  lemma Combine(u: nat, u': nat, e1: nat, e2: nat, v1: nat, v1': nat, v2: nat, v2': nat, b: nat)
    requires u == e1 + e2 + u' * b && u' == v1' + v2'
    requires v1 == v1' * b + e1 && v2 == v2' * b + e2
    ensures u == v1 + v2
  {
    assert (v1' + v2') * b == v1' * b + v2' * b;
  }

  /** The carry into column t and the columns from t on, as one number:
    * its quotient by base is the carry out plus the columns above, its
    * remainder the symbol written. */
  lemma UpperCarry(a1: string, a2: string, base: nat, d1: string, d2: string, m: nat, t: nat, carry: nat)
    requires base >= 2 && |d1| <= m && |d2| <= m
    ensures Quot(Upper(a1, a2, base, d1, d2, m, t) + carry, base) ==
      Upper(a1, a2, base, d1, d2, m, t + 1) + Quot(ColumnDigits(a1, a2, d1, d2, t) + carry, base)
    ensures Rem(Upper(a1, a2, base, d1, d2, m, t) + carry, base) == Rem(ColumnDigits(a1, a2, d1, d2, t) + carry, base)
  {
    QuotRemShift(ColumnDigits(a1, a2, d1, d2, t) + carry, base, Upper(a1, a2, base, d1, d2, m, t + 1));
  }

  /** What the columns from t on write is the representation of n, the
    * carry plus those columns, on as many symbols as it needs (at least k,
    * the columns left). */
  lemma {:induction false} CarryOutRepresent(a1: string, a2: string, base: nat, d1: string, d2: string, m: nat,
                                             t: nat, carry: nat, n: nat, k: nat)
    requires 2 <= base <= |a1| && |d1| <= m && |d2| <= m
    requires n == Upper(a1, a2, base, d1, d2, m, t) + carry && k == Remaining(m, t)
    ensures CarryOut(a1, a2, base, d1, d2, m, t, carry) == Represent(a1, base, n, Width(base, n, k))
    decreases k, carry
  {
    if !(t >= m && carry == 0) {
      UpperCarry(a1, a2, base, d1, d2, m, t, carry);
      CarryOutRepresent(a1, a2, base, d1, d2, m, t + 1, Quot(ColumnDigits(a1, a2, d1, d2, t) + carry, base),
        Quot(n, base), Remaining(m, t + 1));
      WidthStep(base, n, k, Remaining(m, t + 1));
      RepresentStep(a1, base, n, Width(base, n, k), Width(base, Quot(n, base), Remaining(m, t + 1)));
    }
  }

  /** The whole of what the carry loop writes: the sum of both strings on
    * as many symbols as it needs, at least the length of the longer one. */
  lemma CarryOutTotal(a1: string, a2: string, base: nat, d1: string, d2: string)
    requires 2 <= base <= |a1|
    ensures var s := SumValue(a1, a2, base, d1, d2);
      CarryOut(a1, a2, base, d1, d2, Max(|d1|, |d2|), 0, 0) == Represent(a1, base, s, Width(base, s, Max(|d1|, |d2|)))
  {
    UpperValue(a1, a2, base, d1, d2, Max(|d1|, |d2|), 0);
    PrefixZero(d1);
    PrefixZero(d2);
    CarryOutRepresent(a1, a2, base, d1, d2, Max(|d1|, |d2|), 0, 0,
      SumValue(a1, a2, base, d1, d2), Max(|d1|, |d2|));
  }

  // ---------------------------------------------------------------------
  // Sub

  /** Sub reads both operands with the receiver's alphabet; a symbol of the
    * subtrahend at or above the base could make the written index negative
    * (toNumber would panic), so its padded digits must be digits of the
    * base. */
  predicate SubOperands(a: BigNumber, b: BigNumber)
  {
    LoopConfig(a.format) &&
    IsDigits(a.format.alphabet, a.format.base, PaddedDigits(a.format, b.value, CommonPlaces(a.format, a, b)))
  }

  /** The borrow out of a column whose minuend digit (borrow already taken)
    * is x and whose subtrahend digit is y. */
  function BorrowNext(x: int, y: int): nat
  {
    if x < y then 1 else 0
  }

  /** The digit such a column writes: x - y, borrowing base when x < y. */
  function ColumnDifference(x: int, y: int, base: nat): int
  {
    if x < y then x + base - y else x - y
  }

  /** The symbols the columns from t on still write, given the borrow into
    * column t: the borrow loop unrolled. */
  function BorrowOut(a: string, base: nat, d1: string, d2: string, m: nat, t: nat, borrow: nat): string
    requires 2 <= base <= |a| && DigitsBelow(a, base, d2) && borrow <= 1
    decreases Remaining(m, t)
  {
    if t >= m then []
    else
      var x, y := DigitAt(a, d1, t) - borrow, DigitAt(a, d2, t);
      BorrowOut(a, base, d1, d2, m, t + 1, BorrowNext(x, y)) + [ToNumber(a, ColumnDifference(x, y, base))]
  }

  /** The minuend plus base^m minus the subtrahend: what m columns of
    * subtraction with borrow compute, modulo base^m. */
  function WrappedDifference(a: string, base: nat, d1: string, d2: string, m: nat): (n: nat)
    requires 2 <= base <= |a| && DigitsBelow(a, base, d2) && |d2| <= m
    ensures n + Val(a, base, d2) == Val(a, base, d1) + Pow(base, m)
  {
    PrefixZero(d1);
    PrefixZero(d2);
    Owed(a, base, d1, d2, m, 0, 0)
  }

  /** The symbols the borrow loop of `Sub` writes: one per column of the
    * longer padded digit string, no final borrow. */
  function DifferenceDigits(a: BigNumber, b: BigNumber): string
    requires SubOperands(a, b)
  {
    var c := a.format;
    var f := CommonPlaces(c, a, b);
    var d1, d2 := PaddedDigits(c, a.value, f), PaddedDigits(c, b.value, f);
    DigitsBelowOf(c.alphabet, c.base, d2);
    BorrowOut(c.alphabet, c.base, d1, d2, Max(|d1|, |d2|), 0, 0)
  }

  /** The fraction places Sub puts back: each operand's fraction read with
    * its own separator. */
  function SubPlaces(a: BigNumber, b: BigNumber): nat
  {
    Max(|FracPart(a.format, a.value)|, |FracPart(b.format, b.value)|)
  }

  /** Sub's clean-up of a text with a separator: trailing "0"s go, then a
    * separator left at the end. */
  function TrimFraction(s: string, sep: char): (r: string)
    ensures |r| <= |s| && r == s[..|r|]
    ensures r == [] || r[|r| - 1] != '0' || (|r| < |s| && s[|r|] == sep)
    ensures forall k :: |r| <= k < |s| ==> s[k] == '0' || s[k] == sep
  {
    var t := TrimRight(s, '0');
    if HasSuffix(t, [sep]) then TrimSuffix(t, [sep]) else t
  }

  /** What Sub does with the symbols the borrow loop wrote: "0"s trimmed in
    * front; when either operand has a separator, the separator put back
    * `places` symbols from the right and then "0"s trimmed at the end and a
    * bare trailing separator dropped; an empty text becomes "0". */
  function SubCleanUp(digits: string, places: nat, hasDecimal: bool, sep: char): string
  {
    var trimmed := TrimLeft(digits, '0');
    var placed := if hasDecimal then InsertDecimalPoint(trimmed, places, sep) else trimmed;
    var cut := if hasDecimal then TrimFraction(placed, sep) else placed;
    if cut == "" then "0" else cut
  }

  /** `Sub`: the borrowed differences, "0"s trimmed in front, the separator
    * put back when either operand has one and then trailing "0"s and a bare
    * separator trimmed, an empty text read as "0", then NewBigNumber. */
  function SubResult(a: BigNumber, b: BigNumber): BigNumber
    requires SubOperands(a, b)
  {
    var sep := a.format.decimalSeparator;
    var hasDecimal := sep in a.value || b.format.decimalSeparator in b.value;
    NewBigNumber(SubCleanUp(DifferenceDigits(a, b), SubPlaces(a, b), hasDecimal, sep))
  }

  /** `Sub` as written: normalizeDecimal, the borrow loop, the clean-up,
    * NewBigNumber. */
  method Sub(a: BigNumber, b: BigNumber) returns (r: BigNumber)
    requires SubOperands(a, b)
    ensures r == SubResult(a, b)
  {
    var c := a.format;
    var sep := c.decimalSeparator;
    var num1, num2 := NormalizeDecimal(a.value, b.value, sep).0, NormalizeDecimal(a.value, b.value, sep).1;
    var decPlaces := 0;
    var hasDecimal := sep in a.value || b.format.decimalSeparator in b.value;
    if hasDecimal {
      decPlaces := Max(|SplitDecimal(a.value, sep).1|, |SplitDecimal(b.value, b.format.decimalSeparator).1|);
    }
    ghost var f := CommonPlaces(c, a, b);
    NormalizeDecimalParts(c, a.value, b.value);
    PaddedLayout(c, a.value, f);
    PaddedLayout(c, b.value, f);
    DigitsBelowOf(c.alphabet, c.base, PaddedDigits(c, b.value, f));
    var result := BorrowLoop(c.alphabet, c.base, sep, num1, num2,
      PaddedDigits(c, a.value, f), PaddedDigits(c, b.value, f), |IntPart(c, a.value)|, |IntPart(c, b.value)|, f);
    result := TrimLeft(result, '0');
    if hasDecimal {
      result := InsertDecimalPoint(result, decPlaces, sep);
    }
    if hasDecimal {
      result := TrimRight(result, '0');
      if HasSuffix(result, [sep]) {
        result := TrimSuffix(result, [sep]);
      }
    }
    if result == "" {
      result := "0";
    }
    r := NewBigNumber(result);
  }

  /** The loop of `Sub`: from the right, skipping the separator, each column
    * takes the borrow from the minuend digit, borrows base when it is below
    * the subtrahend digit, and writes the difference in front, until both
    * texts are used up; a last borrow is dropped. */
  method BorrowLoop(alphabet: string, base: nat, sep: char, num1: string, num2: string,
                    ghost d1: string, ghost d2: string, ghost n1: nat, ghost n2: nat, ghost f: nat)
    returns (result: string)
    requires 2 <= base <= |alphabet| && DigitsBelow(alphabet, base, d2)
    requires Layout(num1, d1, n1, f, sep) && Layout(num2, d2, n2, f, sep)
    ensures result == BorrowOut(alphabet, base, d1, d2, Max(|d1|, |d2|), 0, 0)
  {
    var i, j := |num1| - 1, |num2| - 1;
    var borrow := 0;
    result := "";
    ghost var m := Max(|d1|, |d2|);
    ghost var passed := false;
    ghost var t: nat := 0;
    ghost var total := BorrowOut(alphabet, base, d1, d2, m, 0, 0);
    while i >= 0 || j >= 0
      invariant Cursor(i, n1, f, t, passed) && Cursor(j, n2, f, t, passed)
      invariant 0 <= borrow <= 1
      invariant BorrowOut(alphabet, base, d1, d2, m, t, borrow) + result == total
      decreases i + j + 2
    {
      CursorBounds(num1, d1, n1, f, sep, i, t, passed);
      CursorBounds(num2, d2, n2, f, sep, j, t, passed);
      ghost var i0, j0, t0, borrow0, result0 := i, j, t, borrow, result;
      if i >= 0 && num1[i] == sep {
        i, j := i - 1, j - 1;
        SkipSeparator(num1, num2, d1, d2, n1, n2, f, sep, i0, j0, t, passed, i, j);
        passed := true;
        continue;
      }
      ReadColumn(alphabet, alphabet, num1, num2, d1, d2, n1, n2, f, sep, i, j, t, passed);
      var digit1: int := if i >= 0 then Digit(alphabet, num1[i]) else 0;
      var digit2: int := if j >= 0 then Digit(alphabet, num2[j]) else 0;
      i := if i >= 0 then i - 1 else i;
      j := if j >= 0 then j - 1 else j;
      var difference;
      difference, borrow := SubtractColumn(digit1, digit2, borrow, base);
      result := [ToNumber(alphabet, difference)] + result;
      t := t + 1;
      BorrowOutStep(alphabet, base, d1, d2, m, t0, borrow0, result0, total, t, borrow, difference, result);
      AdvanceCursors(num1, num2, d1, d2, n1, n2, f, sep, i0, j0, t0, passed, i, j, t);
    }
    CursorBounds(num1, d1, n1, f, sep, i, t, passed);
    CursorBounds(num2, d2, n2, f, sep, j, t, passed);
  }

  /** The body of Sub's loop at one column: take the borrow from the
    * minuend digit, and borrow the base when it falls below the subtrahend
    * digit. */
  method SubtractColumn(digit1: int, digit2: int, borrow: nat, base: nat) returns (difference: int, borrow': nat)
    ensures difference == ColumnDifference(digit1 - borrow, digit2, base)
    ensures borrow' == BorrowNext(digit1 - borrow, digit2)
  {
    var minuend := digit1 - borrow;
    if minuend < digit2 {
      minuend := minuend + base;
      borrow' := 1;
    } else {
      borrow' := 0;
    }
    difference := minuend - digit2;
  }

  /** One column of the loop unrolls BorrowOut once. */
  lemma BorrowOutStep(a: string, base: nat, d1: string, d2: string, m: nat, t: nat, borrow: nat,
                      written: string, total: string, t': nat, borrow': nat, r: int, written': string)
    requires 2 <= base <= |a| && DigitsBelow(a, base, d2) && borrow <= 1 && t < m
    requires BorrowOut(a, base, d1, d2, m, t, borrow) + written == total
    requires t' == t + 1
    requires borrow' == BorrowNext(DigitAt(a, d1, t) - borrow, DigitAt(a, d2, t))
    requires r == ColumnDifference(DigitAt(a, d1, t) - borrow, DigitAt(a, d2, t), base)
    requires 0 <= r < |a| && written' == [ToNumber(a, r)] + written
    ensures BorrowOut(a, base, d1, d2, m, t', borrow') + written' == total
  {
    AppendAssoc(BorrowOut(a, base, d1, d2, m, t + 1, borrow'), [ToNumber(a, r)], written);
  }

  /** What the columns from t on still owe, given the borrow into column t:
    * the minuend's columns from t on plus base to the number of columns
    * left, less the subtrahend's columns and the borrow. */
  function Owed(a: string, base: nat, d1: string, d2: string, m: nat, t: nat, borrow: nat): (n: nat)
    requires 2 <= base && DigitsBelow(a, base, d2) && |d2| <= m && borrow <= 1
    ensures n + Val(a, base, Prefix(d2, t)) + borrow == Val(a, base, Prefix(d1, t)) + Pow(base, Remaining(m, t))
  {
    PrefixBound(a, base, d2, t);
    PowMono(base, |Prefix(d2, t)|, Remaining(m, t));
    Val(a, base, Prefix(d1, t)) + Pow(base, Remaining(m, t)) - Val(a, base, Prefix(d2, t)) - borrow
  }

  /** What the columns from t on write is the representation of what they
    * owe, on as many symbols as there are columns left. */
  lemma {:induction false} BorrowOutRepresent(a: string, base: nat, d1: string, d2: string, m: nat, t: nat, borrow: nat)
    requires 2 <= base <= |a| && DigitsBelow(a, base, d1) && DigitsBelow(a, base, d2) && borrow <= 1
    requires |d1| <= m && |d2| <= m
    ensures BorrowOut(a, base, d1, d2, m, t, borrow) == Represent(a, base, Owed(a, base, d1, d2, m, t, borrow), Remaining(m, t))
    decreases Remaining(m, t)
  {
    if t < m {
      var x, y := DigitAt(a, d1, t) - borrow, DigitAt(a, d2, t);
      OwedColumn(a, base, d1, d2, m, t, borrow);
      BorrowOutRepresent(a, base, d1, d2, m, t + 1, BorrowNext(x, y));
      RepresentStep(a, base, Owed(a, base, d1, d2, m, t, borrow), Remaining(m, t), Remaining(m, t + 1));
      BorrowOutUnfold(a, base, d1, d2, m, t, borrow);
    }
  }

  /** Column t splits what the columns from t on owe into the digit it
    * writes and what the columns above owe, given the borrow it passes on. */
  lemma OwedColumn(a: string, base: nat, d1: string, d2: string, m: nat, t: nat, borrow: nat)
    requires 2 <= base && DigitsBelow(a, base, d1) && DigitsBelow(a, base, d2) && borrow <= 1
    requires |d1| <= m && |d2| <= m && t < m
    ensures var x, y := DigitAt(a, d1, t) - borrow, DigitAt(a, d2, t);
      Quot(Owed(a, base, d1, d2, m, t, borrow), base) == Owed(a, base, d1, d2, m, t + 1, BorrowNext(x, y)) &&
      Rem(Owed(a, base, d1, d2, m, t, borrow), base) == ColumnDifference(x, y, base)
  {
    var k, k' := Remaining(m, t), Remaining(m, t + 1);
    PrefixStep(a, base, d1, t);
    PrefixStep(a, base, d2, t);
    PowStep(base, k, k');
    PrefixBound(a, base, d2, t + 1);
    PowMono(base, |Prefix(d2, t + 1)|, k');
    var n := Owed(a, base, d1, d2, m, t, borrow);
    var n' := BorrowColumn(n, Val(a, base, Prefix(d1, t)), Val(a, base, Prefix(d1, t + 1)), DigitAt(a, d1, t),
      Val(a, base, Prefix(d2, t)), Val(a, base, Prefix(d2, t + 1)), DigitAt(a, d2, t),
      Pow(base, k), Pow(base, k'), base, borrow);
    QuotRemOf(n, base, n', ColumnDifference(DigitAt(a, d1, t) - borrow, DigitAt(a, d2, t), base));
  }

  lemma BorrowOutUnfold(a: string, base: nat, d1: string, d2: string, m: nat, t: nat, borrow: nat)
    requires 2 <= base <= |a| && DigitsBelow(a, base, d2) && borrow <= 1 && t < m
    ensures var x, y := DigitAt(a, d1, t) - borrow, DigitAt(a, d2, t);
      0 <= ColumnDifference(x, y, base) < |a| &&
      BorrowOut(a, base, d1, d2, m, t, borrow) ==
        BorrowOut(a, base, d1, d2, m, t + 1, BorrowNext(x, y)) + [ToNumber(a, ColumnDifference(x, y, base))]
  {
  }

  /** The borrow loop writes one symbol per remaining column. */
  lemma {:induction false} BorrowOutLength(a: string, base: nat, d1: string, d2: string, m: nat, t: nat, borrow: nat)
    requires 2 <= base <= |a| && DigitsBelow(a, base, d2) && borrow <= 1
    ensures |BorrowOut(a, base, d1, d2, m, t, borrow)| == Remaining(m, t)
    decreases Remaining(m, t)
  {
    if t < m {
      var x, y := DigitAt(a, d1, t) - borrow, DigitAt(a, d2, t);
      BorrowOutLength(a, base, d1, d2, m, t + 1, BorrowNext(x, y));
    }
  }

  /** Sub's borrowed differences have the padded operands' longer length. */
  lemma DifferenceDigitsLength(a: BigNumber, b: BigNumber)
    requires SubOperands(a, b)
    ensures var c, f := a.format, CommonPlaces(a.format, a, b);
      |DifferenceDigits(a, b)| == Max(|PaddedDigits(c, a.value, f)|, |PaddedDigits(c, b.value, f)|)
  {
    var c := a.format;
    var f := CommonPlaces(c, a, b);
    var d1, d2 := PaddedDigits(c, a.value, f), PaddedDigits(c, b.value, f);
    DigitsBelowOf(c.alphabet, c.base, d2);
    BorrowOutLength(c.alphabet, c.base, d1, d2, Max(|d1|, |d2|), 0, 0);
  }

  /** One column of subtraction in numbers: with v = v' * b + e for both
    * operands and p = p' * b, the wrapped difference n splits into the
    * column's digit and the wrapped difference of the columns above. */
  lemma BorrowColumn(n: nat, v1: nat, v1': nat, e1: nat, v2: nat, v2': nat, e2: nat, p: nat, p': nat, b: nat, borrow: nat)
    returns (n': nat)
    requires b >= 2 && e1 < b && e2 < b && borrow <= 1 && v2' < p'
    requires n + v2 + borrow == v1 + p
    requires v1 == v1' * b + e1 && v2 == v2' * b + e2 && p == p' * b
    ensures n' + v2' + BorrowNext(e1 - borrow, e2) == v1' + p'
    ensures 0 <= ColumnDifference(e1 - borrow, e2, b) < b
    ensures n == n' * b + ColumnDifference(e1 - borrow, e2, b)
  {
    var c := BorrowNext(e1 - borrow, e2);
    n' := v1' + p' - v2' - c;
    assert (v1' + p' - v2' - c) * b == v1' * b + p' * b - v2' * b - c * b;
  }

  /** The whole of what the borrow loop writes: the wrapped difference on
    * the columns of the longer string. */
  lemma BorrowOutTotal(a: string, base: nat, d1: string, d2: string)
    requires 2 <= base <= |a| && DigitsBelow(a, base, d1) && DigitsBelow(a, base, d2)
    ensures BorrowOut(a, base, d1, d2, Max(|d1|, |d2|), 0, 0) ==
      Represent(a, base, WrappedDifference(a, base, d1, d2, Max(|d1|, |d2|)), Max(|d1|, |d2|))
  {
    PrefixZero(d1);
    PrefixZero(d2);
    BorrowOutRepresent(a, base, d1, d2, Max(|d1|, |d2|), 0, 0);
  }

  /** Read back, the m written symbols are the difference when the minuend
    * is the larger, and base^m less the difference otherwise (the borrow
    * out of the top column is lost). */
  lemma WrappedDifferenceValue(a: string, base: nat, d1: string, d2: string, m: nat)
    requires 2 <= base && DistinctDigits(a, base) && DigitsBelow(a, base, d1) && DigitsBelow(a, base, d2)
    requires |d1| <= m && |d2| <= m
    ensures var v1, v2 := Val(a, base, d1), Val(a, base, d2);
      var r := Val(a, base, Represent(a, base, WrappedDifference(a, base, d1, d2, m), m));
      (v1 >= v2 ==> r == v1 - v2) && (v1 < v2 ==> r == Pow(base, m) - (v2 - v1))
  {
    var v1, v2 := Val(a, base, d1), Val(a, base, d2);
    var n := WrappedDifference(a, base, d1, d2, m);
    PrefixBound(a, base, d1, 0);
    PrefixZero(d1);
    PowMono(base, |d1|, m);
    if v1 >= v2 {
      ReadBackDropHigh(a, base, v1 - v2, n, m);
    } else {
      ValRepresent(a, base, n, m);
    }
  }

  /** x below base^w reads back from the w symbols of x + base^w. */
  lemma ReadBackDropHigh(a: string, base: nat, x: nat, y: nat, w: nat)
    requires 2 <= base && DistinctDigits(a, base) && x < Pow(base, w) && y == x + Pow(base, w)
    ensures Val(a, base, Represent(a, base, y, w)) == x
  {
    RepresentDropHigh(a, base, x, y, w);
    ValRepresent(a, base, x, w);
  }

  /** Where the loop index of one text stands after t columns: before the
    * separator it walks the fraction; after it, the integer part, then
    * rests at -1. */
  predicate Cursor(i: int, n: nat, f: nat, t: nat, passed: bool)
  {
    if passed then f <= t && i == Max(-1, n - 1 - (t - f)) else t <= f && i == n + f - t
  }

  /** What the cursor reads: the separator exactly once, before any integer
    * digit; otherwise the digit of column t; nothing once the digits are
    * used up. */
  lemma CursorSymbol(num: string, d: string, n: nat, f: nat, sep: char, i: int, t: nat, passed: bool)
    requires Layout(num, d, n, f, sep) && Cursor(i, n, f, t, passed)
    ensures -1 <= i < |num|
    ensures i >= 0 && num[i] == sep ==> !passed && t == f
    ensures i >= 0 && num[i] != sep ==> (passed || t < f) && t < |d| && num[i] == d[|d| - 1 - t]
    ensures i < 0 ==> passed && t >= |d|
  {
    if 0 <= i < n {
      assert num[i] == d[..n][i] == d[i];
    } else if n < i < |num| {
      assert num[i] == d[n..][i - n - 1] == d[i - 1];
    }
    if 0 <= i < |num| && i != n {
      assert num[i] in d;
    }
  }

  lemma CursorSkip(i: int, n: nat, f: nat, t: nat)
    requires Cursor(i, n, f, t, false) && t == f
    ensures Cursor(i - 1, n, f, t, true)
  {
  }

  lemma CursorAdvance(i: int, n: nat, f: nat, t: nat, passed: bool)
    requires i >= -1
    requires Cursor(i + 1, n, f, t, passed) || (i < 0 && Cursor(i, n, f, t, passed))
    requires passed || t < f
    ensures Cursor(i, n, f, t + 1, passed)
  {
  }

  /** Away from the separator both cursors read the digits of column t. */
  lemma ReadColumn(a1: string, a2: string, num1: string, num2: string, d1: string, d2: string,
                   n1: nat, n2: nat, f: nat, sep: char, i: int, j: int, t: nat, passed: bool)
    requires Layout(num1, d1, n1, f, sep) && Layout(num2, d2, n2, f, sep)
    requires Cursor(i, n1, f, t, passed) && Cursor(j, n2, f, t, passed)
    requires !(i >= 0 && num1[i] == sep)
    ensures (if i >= 0 then Digit(a1, num1[i]) else 0) == DigitAt(a1, d1, t)
    ensures (if j >= 0 then Digit(a2, num2[j]) else 0) == DigitAt(a2, d2, t)
    ensures i >= 0 || j >= 0 ==> t < Max(|d1|, |d2|)
  {
    CursorSymbol(num1, d1, n1, f, sep, i, t, passed);
    CursorSymbol(num2, d2, n2, f, sep, j, t, passed);
  }

  /** Reading a column moves each cursor that has symbols left one step. */
  lemma AdvanceCursors(num1: string, num2: string, d1: string, d2: string, n1: nat, n2: nat, f: nat, sep: char,
                       i: int, j: int, t: nat, passed: bool, i': int, j': int, t': nat)
    requires Layout(num1, d1, n1, f, sep) && Layout(num2, d2, n2, f, sep)
    requires Cursor(i, n1, f, t, passed) && Cursor(j, n2, f, t, passed)
    requires !(i >= 0 && num1[i] == sep)
    requires i' == (if i >= 0 then i - 1 else i) && j' == (if j >= 0 then j - 1 else j) && t' == t + 1
    ensures Cursor(i', n1, f, t', passed) && Cursor(j', n2, f, t', passed)
  {
    CursorSymbol(num1, d1, n1, f, sep, i, t, passed);
    CursorSymbol(num2, d2, n2, f, sep, j, t, passed);
    CursorAdvance(i', n1, f, t, passed);
    CursorAdvance(j', n2, f, t, passed);
  }

  /** Both cursors stay within their texts; once a text is used up all of
    * its columns are read. */
  lemma CursorBounds(num: string, d: string, n: nat, f: nat, sep: char, i: int, t: nat, passed: bool)
    requires Layout(num, d, n, f, sep) && Cursor(i, n, f, t, passed)
    ensures -1 <= i < |num|
    ensures i < 0 ==> t >= |d|
  {
    CursorSymbol(num, d, n, f, sep, i, t, passed);
  }

  /** Reading the separator moves both cursors past it together. */
  lemma SkipSeparator(num1: string, num2: string, d1: string, d2: string, n1: nat, n2: nat, f: nat, sep: char,
                      i: int, j: int, t: nat, passed: bool, i': int, j': int)
    requires Layout(num1, d1, n1, f, sep) && Layout(num2, d2, n2, f, sep)
    requires Cursor(i, n1, f, t, passed) && Cursor(j, n2, f, t, passed)
    requires 0 <= i < |num1| && num1[i] == sep
    requires i' == i - 1 && j' == j - 1
    ensures Cursor(i', n1, f, t, true) && Cursor(j', n2, f, t, true)
  {
    CursorSymbol(num1, d1, n1, f, sep, i, t, passed);
    CursorSkip(i, n1, f, t);
    CursorSkip(j, n2, f, t);
  }
}
