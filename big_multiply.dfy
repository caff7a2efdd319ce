/** Multiply and ExponentiatedBy of bigNumber.go. Multiply accumulates the
  * grade-school product in place in an array of cells, one per position of
  * the result, and then writes one symbol per cell; it is proved that every
  * cell ends as a single digit and that the cells hold the product of the
  * two digit strings. */
module BigMultiply {
  import opened GoStrings
  import opened BigDigits
  import opened BigNumbers
  import opened BigAddSub
  import opened BigValues

  // ---------------------------------------------------------------------
  // The accumulator

  /** The value of the accumulator cells, most significant first, each cell
    * weighing base times the next; a cell may hold more than a digit. */
  function CellsValue(cells: seq<int>, base: nat): int
  {
    if cells == [] then 0 else CellsValue(cells[..|cells| - 1], base) * base + cells[|cells| - 1]
  }

  /** The cells at positions in [lo, hi) hold one digit each. */
  predicate DigitCells(cells: seq<int>, base: nat, lo: int, hi: int)
  {
    forall k :: lo <= k < hi && 0 <= k < |cells| ==> 0 <= cells[k] < base
  }

  predicate NonNegativeCells(cells: seq<int>)
  {
    forall k :: 0 <= k < |cells| ==> cells[k] >= 0
  }

  /** One column of the inner loop: mul is added to cell p + 1, which keeps
    * the remainder by base and passes the quotient on to cell p. */
  function Column(cells: seq<int>, p: nat, mul: nat, base: nat): (r: seq<int>)
    requires 2 <= base && p + 1 < |cells| && NonNegativeCells(cells)
    ensures |r| == |cells| && NonNegativeCells(r)
  {
    var sum := mul + cells[p + 1];
    cells[p := cells[p] + Quot(sum, base)][p + 1 := Rem(sum, base)]
  }

  /** Row i of the product: the columns for digits j, j - 1, ..., 0 of the
    * second string, each multiplied by the digit digit1 of the first. */
  function RowCells(cells: seq<int>, alphabet: string, base: nat, digit1: nat, d2: string, i: nat, j: int): (r: seq<int>)
    requires 2 <= base && -1 <= j < |d2| && i + |d2| < |cells| && NonNegativeCells(cells)
    ensures |r| == |cells| && NonNegativeCells(r)
    decreases j + 1
  {
    if j < 0 then cells
    else RowCells(Column(cells, i + j, digit1 * Digit(alphabet, d2[j]), base), alphabet, base, digit1, d2, i, j - 1)
  }

  /** The inner loop of Multiply for row i, over the accumulator in place. */
  method MultiplyRow(alphabet: string, base: nat, d1: string, d2: string, i: nat, result: array<int>)
    requires 2 <= base && i < |d1| && result.Length == |d1| + |d2| && NonNegativeCells(result[..])
    modifies result
    ensures result[..] == RowCells(old(result[..]), alphabet, base, Digit(alphabet, d1[i]), d2, i, |d2| - 1)
  {
    var digit1 := Digit(alphabet, d1[i]);
    var j := |d2| - 1;
    while j >= 0
      invariant -1 <= j < |d2| && NonNegativeCells(result[..])
      invariant RowCells(result[..], alphabet, base, digit1, d2, i, j) ==
        RowCells(old(result[..]), alphabet, base, digit1, d2, i, |d2| - 1)
    {
      ghost var before := result[..];
      var digit2 := Digit(alphabet, d2[j]);
      MulNat(digit1, digit2);
      var mul: nat := digit1 * digit2;
      var p1, p2 := i + j, i + j + 1;
      var cell := result[p2];
      assert cell == before[p2] && before[p2] >= 0;
      var sum: nat := mul + cell;
      var q, r := Quot(sum, base), Rem(sum, base);
      result[p1] := result[p1] + q;
      result[p2] := r;
      assert result[..] == before[p1 := before[p1] + q][p2 := r];
      ColumnStep(before, result[..], alphabet, base, digit1, d2, i, j, sum);
      j := j - 1;
    }
  }

  lemma MulNat(x: nat, y: nat)
    ensures x * y >= 0
  {
  }

  /** One pass of the inner loop is one column of the row. */
  lemma ColumnStep(before: seq<int>, after: seq<int>, alphabet: string, base: nat, digit1: nat, d2: string, i: nat, j: nat, sum: nat)
    requires 2 <= base && j < |d2| && i + |d2| < |before| && NonNegativeCells(before)
    requires sum == digit1 * Digit(alphabet, d2[j]) + before[i + j + 1]
    requires after == before[i + j := before[i + j] + Quot(sum, base)][i + j + 1 := Rem(sum, base)]
    ensures after == Column(before, i + j, digit1 * Digit(alphabet, d2[j]), base)
    ensures NonNegativeCells(after)
    ensures RowCells(after, alphabet, base, digit1, d2, i, j - 1) == RowCells(before, alphabet, base, digit1, d2, i, j)
  {
  }

  /** A row adds digit1 times the columns' digits of d2 at their weights:
    * column j sits at cell i + j + 1, whose weight is base to the power
    * k + (|d2| - 1 - j). */
  lemma {:induction false} RowValue(cells: seq<int>, alphabet: string, base: nat, digit1: nat, d2: string, i: nat, j: int, e: nat)
    requires 2 <= base && -1 <= j < |d2| && i + |d2| < |cells| && NonNegativeCells(cells)
    requires e + i + j + 2 == |cells|
    ensures CellsValue(RowCells(cells, alphabet, base, digit1, d2, i, j), base) ==
      CellsValue(cells, base) + digit1 * Val(alphabet, base, d2[..j + 1]) * Pow(base, e)
    decreases j + 1
  {
    if j < 0 {
      assert d2[..j + 1] == [];
    } else {
      var e2 := Digit(alphabet, d2[j]);
      var mul := digit1 * e2;
      var next := Column(cells, i + j, mul, base);
      RowValue(next, alphabet, base, digit1, d2, i, j - 1, e + 1);
      ColumnFirst(cells, alphabet, base, digit1, d2, i, j, e);
      ValLast(alphabet, base, d2, j);
      PowStep(base, e + 1, e);
      RowStepArith(CellsValue(cells, base), CellsValue(next, base),
        CellsValue(RowCells(next, alphabet, base, digit1, d2, i, j - 1), base),
        digit1, e2, mul, base, Val(alphabet, base, d2[..j]), Val(alphabet, base, d2[..j + 1]),
        Pow(base, e), Pow(base, e + 1));
    }
  }

  /** A row starts with its column j, which adds its product at weight e. */
  lemma ColumnFirst(cells: seq<int>, alphabet: string, base: nat, digit1: nat, d2: string, i: nat, j: nat, e: nat)
    requires 2 <= base && j < |d2| && i + |d2| < |cells| && NonNegativeCells(cells)
    requires e + i + j + 2 == |cells|
    ensures var mul := digit1 * Digit(alphabet, d2[j]);
      var next := Column(cells, i + j, mul, base);
      RowCells(cells, alphabet, base, digit1, d2, i, j) == RowCells(next, alphabet, base, digit1, d2, i, j - 1) &&
      CellsValue(next, base) == CellsValue(cells, base) + mul * Pow(base, e)
  {
    ColumnValue(cells, i + j, digit1 * Digit(alphabet, d2[j]), base, e);
  }

  /** The value of the first j + 1 digits: the first j, shifted, plus digit j. */
  lemma ValLast(alphabet: string, base: nat, d: string, j: nat)
    requires j < |d|
    ensures Val(alphabet, base, d[..j + 1]) == Val(alphabet, base, d[..j]) * base + Digit(alphabet, d[j])
  {
    assert d[..j + 1][..j] == d[..j];
  }

  lemma RowStepArith(v: int, v1: int, v2: int, e1: int, e2: int, mul: int, base: int, t: int, t': int, p: int, p': int)
    requires mul == e1 * e2 && v1 == v + mul * p && v2 == v1 + e1 * t * p'
    requires t' == t * base + e2 && p' == p * base
    ensures v2 == v + e1 * t' * p
  {
    RowArith(e1, e2, base, t, t', p, p', mul);
  }

  /** One column adds mul at the weight of its cell p + 1. */
  lemma ColumnValue(cells: seq<int>, p: nat, mul: nat, base: nat, e: nat)
    requires 2 <= base && p + 1 < |cells| && NonNegativeCells(cells) && e + p + 2 == |cells|
    ensures CellsValue(Column(cells, p, mul, base), base) == CellsValue(cells, base) + mul * Pow(base, e)
  {
    var sum := mul + cells[p + 1];
    DivModSplit(sum, base);
    var s1 := cells[p := cells[p] + Quot(sum, base)];
    CellsStep(cells, s1, Column(cells, p, mul, base), base, p, mul, Quot(sum, base), Rem(sum, base), e);
  }

  /** A row leaves cells i + 1 and beyond as single digits when the cells
    * right of its first column already were. */
  lemma {:induction false} RowDigits(cells: seq<int>, alphabet: string, base: nat, digit1: nat, d2: string, i: nat, j: int)
    requires 2 <= base && -1 <= j < |d2| && i + |d2| < |cells| && NonNegativeCells(cells)
    requires DigitCells(cells, base, i + j + 2, |cells|)
    ensures DigitCells(RowCells(cells, alphabet, base, digit1, d2, i, j), base, i + 1, |cells|)
    decreases j + 1
  {
    if j >= 0 {
      var next := Column(cells, i + j, digit1 * Digit(alphabet, d2[j]), base);
      assert DigitCells(next, base, i + j + 1, |cells|);
      RowDigits(next, alphabet, base, digit1, d2, i, j - 1);
    }
  }

  /** Rows i, i - 1, ..., 0 of the product, the outer loop of Multiply. */
  function Rows(cells: seq<int>, alphabet: string, base: nat, d1: string, d2: string, i: int): (r: seq<int>)
    requires 2 <= base && -1 <= i < |d1| && |cells| == |d1| + |d2| && NonNegativeCells(cells)
    ensures |r| == |cells| && NonNegativeCells(r)
    decreases i + 1
  {
    if i < 0 then cells
    else Rows(RowCells(cells, alphabet, base, Digit(alphabet, d1[i]), d2, i, |d2| - 1), alphabet, base, d1, d2, i - 1)
  }

  /** The accumulator Multiply starts from. */
  function Zeros(n: nat): (r: seq<int>)
    ensures |r| == n && NonNegativeCells(r)
  {
    seq(n, _ => 0)
  }

  /** The cells after both loops of Multiply. */
  function ProductCells(alphabet: string, base: nat, d1: string, d2: string): (r: seq<int>)
    requires 2 <= base
    ensures |r| == |d1| + |d2|
  {
    Rows(Zeros(|d1| + |d2|), alphabet, base, d1, d2, |d1| - 1)
  }

  /** The two loops of Multiply over the accumulator, in place. */
  method MultiplyCells(alphabet: string, base: nat, d1: string, d2: string) returns (result: array<int>)
    requires 2 <= base
    ensures fresh(result) && result[..] == ProductCells(alphabet, base, d1, d2)
  {
    result := new int[|d1| + |d2|](_ => 0);
    assert result[..] == Zeros(|d1| + |d2|);
    var i := |d1| - 1;
    while i >= 0
      invariant -1 <= i < |d1| && result.Length == |d1| + |d2| && NonNegativeCells(result[..])
      invariant Rows(result[..], alphabet, base, d1, d2, i) == ProductCells(alphabet, base, d1, d2)
    {
      MultiplyRow(alphabet, base, d1, d2, i, result);
      i := i - 1;
    }
  }

  /** Rows i down to 0 add the first i + 1 digits of d1 times d2, at the
    * weight of position i. */
  lemma {:induction false} RowsValue(cells: seq<int>, alphabet: string, base: nat, d1: string, d2: string, i: int, k: nat)
    requires 2 <= base && -1 <= i < |d1| && |cells| == |d1| + |d2| && NonNegativeCells(cells) && k + i + 1 == |d1|
    ensures CellsValue(Rows(cells, alphabet, base, d1, d2, i), base) ==
      CellsValue(cells, base) + Val(alphabet, base, d1[..i + 1]) * Val(alphabet, base, d2) * Pow(base, k)
    decreases i + 1
  {
    if i < 0 {
      assert d1[..i + 1] == [];
    } else {
      var digit1 := Digit(alphabet, d1[i]);
      var next := RowCells(cells, alphabet, base, digit1, d2, i, |d2| - 1);
      var t, t' := Val(alphabet, base, d1[..i]), Val(alphabet, base, d1[..i + 1]);
      var m, p, p' := Val(alphabet, base, d2), Pow(base, k), Pow(base, k + 1);
      var v, v1 := CellsValue(cells, base), CellsValue(next, base);
      var v2 := CellsValue(Rows(next, alphabet, base, d1, d2, i - 1), base);
      assert Rows(cells, alphabet, base, d1, d2, i) == Rows(next, alphabet, base, d1, d2, i - 1);
      assert v1 == v + digit1 * m * p by {
        RowValue(cells, alphabet, base, digit1, d2, i, |d2| - 1, k);
        assert d2[..|d2|] == d2;
      }
      assert v2 == v1 + t * m * p' by {
        RowsValue(next, alphabet, base, d1, d2, i - 1, k + 1);
      }
      assert t' == t * base + digit1 by {
        assert d1[..i + 1][..i] == d1[..i];
      }
      PowStep(base, k + 1, k);
      RowsArith(v, v1, v2, t, t', m, digit1, p, p', base);
    }
  }

  lemma RowsArith(v: int, v1: int, v2: int, t: int, t': int, m: int, d: int, p: int, p': int, base: int)
    requires v1 == v + d * m * p && v2 == v1 + t * m * p' && t' == t * base + d && p' == p * base
    ensures v2 == v + t' * m * p
  {
    assert t * m * p' == t * base * m * p;
    assert t' * m * p == t * base * m * p + d * m * p;
  }

  /** The rows leave every cell but the first a single digit. */
  lemma {:induction false} RowsDigits(cells: seq<int>, alphabet: string, base: nat, d1: string, d2: string, i: int)
    requires 2 <= base && -1 <= i < |d1| && 1 <= |d2| && |cells| == |d1| + |d2| && NonNegativeCells(cells)
    requires DigitCells(cells, base, i + 2, |cells|)
    ensures DigitCells(Rows(cells, alphabet, base, d1, d2, i), base, 1, |cells|)
    decreases i + 1
  {
    if i >= 0 {
      var digit1 := Digit(alphabet, d1[i]);
      DigitCellsWithin(cells, base, i + 2, |cells|, i + |d2| + 1, |cells|);
      RowDigits(cells, alphabet, base, digit1, d2, i, |d2| - 1);
      RowsDigits(RowCells(cells, alphabet, base, digit1, d2, i, |d2| - 1), alphabet, base, d1, d2, i - 1);
    }
  }

  /** CellsValue of the accumulator Multiply starts from. */
  lemma {:induction false} ZerosValue(n: nat, base: nat)
    ensures CellsValue(Zeros(n), base) == 0
  {
    if n > 0 {
      assert Zeros(n)[..n - 1] == Zeros(n - 1);
      ZerosValue(n - 1, base);
    }
  }

  /** The first cell weighs base^(|cells| - 1). */
  lemma {:induction false} CellsFront(cells: seq<int>, base: nat)
    requires |cells| >= 1
    ensures CellsValue(cells, base) == cells[0] * Pow(base, |cells| - 1) + CellsValue(cells[1..], base)
    decreases |cells|
  {
    var n := |cells|;
    if n == 1 {
      assert cells[1..] == [] && cells[..0] == [];
    } else {
      var init := cells[..n - 1];
      CellsFront(init, base);
      assert init[1..] == cells[1..][..n - 2];
      assert cells[1..][n - 2] == cells[n - 1];
      PowStep(base, n - 1, n - 2);
      ShiftArith(CellsValue(init[1..], base), cells[0], Pow(base, n - 2), Pow(base, n - 1), base, cells[n - 1]);
    }
  }

  /** The cells after both loops are worth the product of the two digit
    * strings. */
  lemma ProductValue(alphabet: string, base: nat, d1: string, d2: string)
    requires 2 <= base
    ensures CellsValue(ProductCells(alphabet, base, d1, d2), base) == Val(alphabet, base, d1) * Val(alphabet, base, d2)
  {
    var n := |d1| + |d2|;
    var x, y := Val(alphabet, base, d1), Val(alphabet, base, d2);
    var i := |d1| - 1;
    var r := Rows(Zeros(n), alphabet, base, d1, d2, i);
    assert r == ProductCells(alphabet, base, d1, d2);
    RowsValue(Zeros(n), alphabet, base, d1, d2, i, 0);
    ZerosValue(n, base);
    assert Pow(base, 0) == 1;
    FromZeroTimesOne(CellsValue(r, base), CellsValue(Zeros(n), base), Val(alphabet, base, d1[..i + 1]), y, Pow(base, 0));
    assert d1[..i + 1] == d1;
  }

  lemma FromZeroTimesOne(v: int, z: int, x: int, y: int, p: int)
    requires v == z + x * y * p && z == 0 && p == 1
    ensures v == x * y
  {
  }

  /** The two loops leave every cell a single digit, and the cells are
    * worth the product of the two digit strings. */
  lemma ProductDigits(alphabet: string, base: nat, d1: string, d2: string)
    requires 2 <= base && IsDigits(alphabet, base, d1) && IsDigits(alphabet, base, d2) && 1 <= |d2|
    ensures var p := ProductCells(alphabet, base, d1, d2);
      DigitCells(p, base, 0, |p|) && CellsValue(p, base) == Val(alphabet, base, d1) * Val(alphabet, base, d2)
  {
    var n := |d1| + |d2|;
    var p := ProductCells(alphabet, base, d1, d2);
    ProductValue(alphabet, base, d1, d2);
    RowsDigits(Zeros(n), alphabet, base, d1, d2, |d1| - 1);
    ProductBound(alphabet, base, d1, d2);
    LeadCell(p, base, n);
  }

  /** The product of a digit string of length l1 and one of length l2 is
    * below base^(l1 + l2). */
  lemma ProductBound(alphabet: string, base: nat, d1: string, d2: string)
    requires 2 <= base && IsDigits(alphabet, base, d1) && IsDigits(alphabet, base, d2)
    ensures Val(alphabet, base, d1) * Val(alphabet, base, d2) < Pow(base, |d1| + |d2|)
  {
    var x, y := Val(alphabet, base, d1), Val(alphabet, base, d2);
    var p1, p2 := Pow(base, |d1|), Pow(base, |d2|);
    assert x < p1 && y < p2 by {
      ValBound(alphabet, base, d1);
      ValBound(alphabet, base, d2);
    }
    var q := Pow(base, |d1| + |d2|);
    assert q == p1 * p2 by {
      PowAdd(base, |d1|, |d2|);
    }
    ProductBelow(x, y, p1, p2);
  }

  /** Cells worth less than base^n whose others are digits have a digit
    * first too. */
  lemma LeadCell(cells: seq<int>, base: nat, n: nat)
    requires 2 <= base && |cells| == n >= 1 && NonNegativeCells(cells) && DigitCells(cells, base, 1, n)
    requires CellsValue(cells, base) < Pow(base, n)
    ensures DigitCells(cells, base, 0, n)
  {
    CellsFront(cells, base);
    PowStep(base, n, n - 1);
    CellsNonNegative(cells[1..], base);
    LeadBelow(cells[0], Pow(base, n - 1), CellsValue(cells[1..], base), base);
  }

  lemma ProductBelow(x: nat, y: nat, px: nat, py: nat)
    requires x < px && y < py
    ensures x * y < px * py
  {
    MulLe(x, px, y);
    MulLe(y + 1, py, px);
  }

  /** A first cell c with c * p + rest below base * p is a digit. */
  lemma LeadBelow(c: int, p: nat, rest: int, base: nat)
    requires c >= 0 && rest >= 0 && p >= 1 && c * p + rest < p * base
    ensures c < base
  {
    if c >= base {
      MulLe(base, c, p);
    }
  }

  lemma {:induction false} CellsNonNegative(cells: seq<int>, base: nat)
    requires NonNegativeCells(cells)
    ensures CellsValue(cells, base) >= 0
    decreases |cells|
  {
    if cells != [] {
      CellsNonNegative(cells[..|cells| - 1], base);
    }
  }

  // ---------------------------------------------------------------------
  // From cells to symbols

  /** The symbols resultStr collects: toNumber of each cell in turn. */
  function CellsText(alphabet: string, cells: seq<int>): (r: string)
    requires DigitCells(cells, |alphabet|, 0, |cells|)
    ensures |r| == |cells|
  {
    if cells == [] then []
    else CellsText(alphabet, cells[..|cells| - 1]) + [ToNumber(alphabet, cells[|cells| - 1])]
  }

  /** Digit cells written as symbols are digits of the same value. */
  lemma {:induction false} CellsTextValue(alphabet: string, base: nat, cells: seq<int>)
    requires 2 <= base && DistinctDigits(alphabet, base) && DigitCells(cells, base, 0, |cells|)
    ensures DigitCells(cells, |alphabet|, 0, |cells|)
    ensures var t := CellsText(alphabet, cells);
      IsDigits(alphabet, base, t) && Val(alphabet, base, t) == CellsValue(cells, base)
    decreases |cells|
  {
    if cells != [] {
      var n := |cells|;
      var init := cells[..n - 1];
      CellsTextValue(alphabet, base, init);
      var t, t' := CellsText(alphabet, cells), CellsText(alphabet, init);
      var d := cells[n - 1];
      assert t == t' + [alphabet[d]] && t[..n - 1] == t';
      DigitOfSymbol(alphabet, base, d);
      assert alphabet[d] in alphabet[..base] by {
        assert alphabet[..base][d] == alphabet[d];
      }
    }
  }

  /** The digit loops of Multiply and the symbols they write: the product of
    * the two digit strings on |d1| + |d2| symbols, leading zeros included. */
  method MultiplyDigits(alphabet: string, base: nat, d1: string, d2: string) returns (text: string)
    requires 2 <= base && DistinctDigits(alphabet, base) && 1 <= |d2|
    requires IsDigits(alphabet, base, d1) && IsDigits(alphabet, base, d2)
    ensures text == ProductDigitsOf(alphabet, base, d1, d2)
  {
    var result := MultiplyCells(alphabet, base, d1, d2);
    ProductDigits(alphabet, base, d1, d2);
    text := "";
    var k := 0;
    while k < result.Length
      invariant 0 <= k <= result.Length && DigitCells(result[..], base, 0, result.Length)
      invariant text == CellsText(alphabet, result[..k])
    {
      assert result[..k + 1][..k] == result[..k];
      text := text + [ToNumber(alphabet, result[k])];
      k := k + 1;
    }
    assert result[..k] == result[..];
    CellsTextValue(alphabet, base, result[..]);
    RepresentUnique(alphabet, base, text);
  }

  /** One column of a row: with the sum split as q * base + r, putting q
    * on cell p1 and r in place of cell p1 + 1 adds mul at the weight of
    * p1 + 1. */
  lemma CellsStep(s: seq<int>, s1: seq<int>, s': seq<int>, base: nat, p1: nat, mul: int, q: int, r: int, e: nat)
    requires p1 + 1 < |s| && e + p1 + 2 == |s| && mul + s[p1 + 1] == q * base + r
    requires s1 == s[p1 := s[p1] + q] && s' == s1[p1 + 1 := r]
    ensures CellsValue(s', base) == CellsValue(s, base) + mul * Pow(base, e)
  {
    var x0, x := s[p1], s[p1 + 1];
    var v, v1, v2 := CellsValue(s, base), CellsValue(s1, base), CellsValue(s', base);
    var p, p' := Pow(base, e), Pow(base, e + 1);
    assert v1 == v + ((x0 + q) - x0) * p' by {
      CellsSet(s, s1, p1, x0 + q, x0, base, e + 1);
    }
    assert v2 == v1 + (r - x) * p by {
      CellsSet(s1, s', p1 + 1, r, x, base, e);
    }
    PowStep(base, e + 1, e);
    CarryArith(x0, v, v1, v2, q, r, x, mul + x, mul, base, p, p');
  }

  lemma CarryArith(x0: int, v: int, v1: int, v2: int, q: int, r: int, x: int, sum: int, mul: int, base: int, p: int, p1: int)
    requires p1 == p * base && v1 == v + ((x0 + q) - x0) * p1 && v2 == v1 + (r - x) * p
    requires sum == q * base + r && sum == mul + x
    ensures v2 == v + mul * p
  {
    assert q * p1 == (q * base) * p;
    assert (q * base) * p + (r - x) * p == (q * base + r - x) * p;
  }

  /** Setting cell k to x adds the difference at the weight of k. */
  lemma {:induction false} CellsSet(s: seq<int>, s': seq<int>, k: nat, x: int, y: int, base: nat, e: nat)
    requires k < |s| && e + k + 1 == |s| && s' == s[k := x] && y == s[k]
    ensures CellsValue(s', base) == CellsValue(s, base) + (x - y) * Pow(base, e)
    decreases |s|
  {
    var n := |s|;
    if k == n - 1 {
      assert s'[..n - 1] == s[..n - 1];
    } else {
      assert s'[..n - 1] == s[..n - 1][k := x];
      CellsSet(s[..n - 1], s'[..n - 1], k, x, y, base, e - 1);
      PowStep(base, e, e - 1);
      ShiftArith(CellsValue(s[..n - 1], base), x - y, Pow(base, e - 1), Pow(base, e), base, s[n - 1]);
    }
  }

  lemma ShiftArith(a: int, delta: int, p: int, p': int, base: int, last: int)
    requires p' == p * base
    ensures (a + delta * p) * base + last == a * base + last + delta * p'
  {
    assert (a + delta * p) * base == a * base + delta * (p * base);
  }

  lemma RowArith(e1: int, e2: int, base: int, s: int, s': int, p: int, p': int, mul: int)
    requires s' == s * base + e2 && p' == p * base && mul == e1 * e2
    ensures e1 * s' * p == e1 * s * p' + mul * p
  {
    assert e1 * s' == e1 * s * base + e1 * e2;
    assert (e1 * s * base + e1 * e2) * p == e1 * s * (p * base) + (e1 * e2) * p;
  }

  lemma DigitCellsWithin(cells: seq<int>, base: nat, lo: int, hi: int, lo': int, hi': int)
    requires DigitCells(cells, base, lo, hi) && lo <= lo' && hi' <= hi
    ensures DigitCells(cells, base, lo', hi')
  {
  }

  // ---------------------------------------------------------------------
  // Multiply's text

  /** PadEndString is defined outside bigNumber.go; it is taken here to pad
    * `s` on the right with `pad` to `n` symbols and to leave a string of n
    * or more symbols alone, as slice.go's PadEnd does for slices. */
  function PadEndString(s: string, n: int, pad: char): string
  {
    if |s| < n then s + Repeat(pad, n - |s|) else s
  }

  /** "0"s trimmed in front, and a "0" put back before a leading separator. */
  function TrimLeading(s: string, sep: char): string
  {
    var t := TrimLeft(s, '0');
    if HasPrefix(t, [sep]) then "0" + t else t
  }

  /** The text split at the separator, the second piece padded with "0" to
    * maxDecimal symbols when shorter, and joined again. */
  function PadSecondPiece(s: string, sep: char, maxDecimal: int): string
    requires sep in s
  {
    SplitCharPresent(s, sep);
    var parts := Split(s, [sep]);
    var parts' := if |parts[1]| < maxDecimal then parts[1 := PadEndString(parts[1], maxDecimal, '0')] else parts;
    Join(parts', [sep])
  }

  /** What Multiply does with the written symbols: the separator put back m
    * symbols from the right when m > 0, "0"s trimmed in front, the fraction
    * padded to maxDecimal places, and when maxDecimal <= 0 "0"s trimmed at
    * the end, then a bare trailing separator dropped and an empty text read
    * as "0". `trimPlain` says whether the trimming at the end also applies
    * to a text without a separator, as in the source. */
  function MultiplyCleanUp(digits: string, m: nat, sep: char, maxDecimal: int, trimPlain: bool): string
  {
    var placed := if m > 0 then InsertDecimalPoint(digits, m, sep) else digits;
    EndProduct(PadProduct(TrimLeading(placed, sep), sep, maxDecimal), sep, maxDecimal, trimPlain)
  }

  /** A fraction shorter than maxDecimal is padded with "0"s. */
  function PadProduct(led: string, sep: char, maxDecimal: int): string
  {
    if sep in led then PadSecondPiece(led, sep, maxDecimal) else led
  }

  /** With maxDecimal not positive, "0"s are trimmed at the end (the code does
    * so with or without a separator: `trimPlain`); then a bare separator at
    * the end is dropped, and an empty text becomes "0". */
  function EndProduct(padded: string, sep: char, maxDecimal: int, trimPlain: bool): string
  {
    var cut := if maxDecimal <= 0 && (trimPlain || sep in padded) then TrimRight(padded, '0') else padded;
    var ended := if HasSuffix(cut, [sep]) then TrimSuffix(cut, [sep]) else cut;
    if ended == "" then "0" else ended
  }


  /** What Multiply needs of its operands: both texts well formed in the
    * receiver's configuration, which the source reads both of them in. */
  predicate MultiplyOperands(a: BigNumber, b: BigNumber)
  {
    WellFormed(a.format, a.value) && WellFormed(a.format, b.value)
  }

  /** The product of two digit strings, on as many symbols as both
    * together. */
  function ProductDigitsOf(alphabet: string, base: nat, d1: string, d2: string): string
    requires 2 <= base <= |alphabet|
  {
    Represent(alphabet, base, Val(alphabet, base, d1) * Val(alphabet, base, d2), |d1| + |d2|)
  }

  /** The text `Multiply` hands to NewBigNumber: the product of the padded
    * digit strings, cleaned up with the separator 2 * f symbols from the
    * right; `trimPlain` says whether "0"s are trimmed at the end of a text
    * without separator, as the code does. */
  function ProductText(a: BigNumber, b: BigNumber, trimPlain: bool): string
    requires MultiplyOperands(a, b)
  {
    var c := a.format;
    var f := CommonPlaces(c, a, b);
    var digits := ProductDigitsOf(c.alphabet, c.base, PaddedDigits(c, a.value, f), PaddedDigits(c, b.value, f));
    MultiplyCleanUp(digits, 2 * f, c.decimalSeparator, c.maxDecimal, trimPlain)
  }

  /** What `Multiply` returns: the text read by NewBigNumber, with the product
    * of the signs. */
  function MultiplyResult(a: BigNumber, b: BigNumber): BigNumber
    requires MultiplyOperands(a, b)
  {
    NewBigNumber(ProductText(a, b, true)).(sign := a.sign * b.sign)
  }

  /** Multiply as written: normalizeDecimal when either text has a
    * separator, the digits of each side with the separator dropped, the two
    * digit loops, the clean-up, NewBigNumber and the sign. */
  method Multiply(a: BigNumber, b: BigNumber) returns (r: BigNumber)
    requires MultiplyOperands(a, b)
    ensures r == MultiplyResult(a, b)
  {
    var c := a.format;
    var sep := c.decimalSeparator;
    ghost var f := CommonPlaces(c, a, b);
    var num1, num2 := MultiplyOperandTexts(a, b);
    var intPart1, decPart1 := SplitDecimal(num1, sep).0, SplitDecimal(num1, sep).1;
    var intPart2, decPart2 := SplitDecimal(num2, sep).0, SplitDecimal(num2, sep).1;
    intPart1 := intPart1 + decPart1;
    intPart2 := intPart2 + decPart2;
    var m := |decPart1| + |decPart2|;
    var resultStr := MultiplyDigits(c.alphabet, c.base, intPart1, intPart2);
    assert intPart1 == PaddedDigits(c, a.value, f);
    assert intPart2 == PaddedDigits(c, b.value, f);
    assert m == 2 * f;
    assert resultStr == ProductDigitsOf(c.alphabet, c.base, PaddedDigits(c, a.value, f), PaddedDigits(c, b.value, f));
    var text := MultiplyCleanUp(resultStr, m, sep, c.maxDecimal, true);
    assert text == ProductText(a, b, true);
    r := NewBigNumber(text);
    r := r.(sign := a.sign * b.sign);
  }

  /** The first lines of `Multiply`: values with a separator are brought to
    * the same number of fraction symbols; split and joined again, they give
    * the padded digit strings, with 2 * f places between them. */
  method MultiplyOperandTexts(a: BigNumber, b: BigNumber) returns (num1: string, num2: string)
    requires MultiplyOperands(a, b)
    ensures var c, f := a.format, CommonPlaces(a.format, a, b);
      f >= |FracPart(c, a.value)| && f >= |FracPart(c, b.value)| &&
      SplitDecimal(num1, c.decimalSeparator).0 + SplitDecimal(num1, c.decimalSeparator).1 == PaddedDigits(c, a.value, f) &&
      SplitDecimal(num2, c.decimalSeparator).0 + SplitDecimal(num2, c.decimalSeparator).1 == PaddedDigits(c, b.value, f) &&
      |SplitDecimal(num1, c.decimalSeparator).1| + |SplitDecimal(num2, c.decimalSeparator).1| == 2 * f &&
      PaddedOperands(c, a.value, b.value, f)
  {
    var c := a.format;
    var sep := c.decimalSeparator;
    num1, num2 := a.value, b.value;
    if sep in num1 || sep in num2 {
      num1, num2 := NormalizeDecimal(num1, num2, sep).0, NormalizeDecimal(num1, num2, sep).1;
      NormalizedPieces(c, a.value, b.value, num1, num2, CommonPlaces(c, a, b));
    } else {
      PlainPieces(c, a.value, b.value, CommonPlaces(c, a, b));
    }
  }

  /** What the first lines of `Multiply` make of two values with a
    * separator: the padded digit strings, with 2 * f places between them. */
  lemma NormalizedPieces(c: Config, v1: string, v2: string, n1: string, n2: string, f: nat)
    requires WellFormed(c, v1) && WellFormed(c, v2) && f == Max(|FracPart(c, v1)|, |FracPart(c, v2)|)
    requires n1 == NormalizeDecimal(v1, v2, c.decimalSeparator).0 && n2 == NormalizeDecimal(v1, v2, c.decimalSeparator).1
    ensures f >= |FracPart(c, v1)| && f >= |FracPart(c, v2)|
    ensures SplitDecimal(n1, c.decimalSeparator).0 + SplitDecimal(n1, c.decimalSeparator).1 == PaddedDigits(c, v1, f)
    ensures SplitDecimal(n2, c.decimalSeparator).0 + SplitDecimal(n2, c.decimalSeparator).1 == PaddedDigits(c, v2, f)
    ensures |SplitDecimal(n1, c.decimalSeparator).1| + |SplitDecimal(n2, c.decimalSeparator).1| == 2 * f
    ensures PaddedOperands(c, v1, v2, f)
  {
    PaddedOperandsOf(c, v1, v2, f);
    NormalizedSplit(c, v1, v2);
    PaddedPiece(c, v1, n1, f);
    PaddedPiece(c, v2, n2, f);
  }

  /** The same for two values without a separator, which `Multiply` leaves
    * as they are. */
  lemma PlainPieces(c: Config, v1: string, v2: string, f: nat)
    requires WellFormed(c, v1) && WellFormed(c, v2)
    requires c.decimalSeparator !in v1 && c.decimalSeparator !in v2
    requires f == Max(|FracPart(c, v1)|, |FracPart(c, v2)|)
    ensures f >= |FracPart(c, v1)| && f >= |FracPart(c, v2)|
    ensures SplitDecimal(v1, c.decimalSeparator).0 + SplitDecimal(v1, c.decimalSeparator).1 == PaddedDigits(c, v1, f)
    ensures SplitDecimal(v2, c.decimalSeparator).0 + SplitDecimal(v2, c.decimalSeparator).1 == PaddedDigits(c, v2, f)
    ensures |SplitDecimal(v1, c.decimalSeparator).1| + |SplitDecimal(v2, c.decimalSeparator).1| == 2 * f
    ensures PaddedOperands(c, v1, v2, f)
  {
    PaddedOperandsOf(c, v1, v2, f);
    PlainSplit(c, v1, v2);
    PaddedPiece(c, v1, v1, f);
    PaddedPiece(c, v2, v2, f);
  }

  /** The padded digit strings are what `MultiplyDigits` needs. */
  predicate PaddedOperands(c: Config, v1: string, v2: string, f: nat)
    requires ValidConfig(c) && f >= |FracPart(c, v1)| && f >= |FracPart(c, v2)|
  {
    IsDigits(c.alphabet, c.base, PaddedDigits(c, v1, f)) && IsDigits(c.alphabet, c.base, PaddedDigits(c, v2, f)) &&
    1 <= |PaddedDigits(c, v2, f)|
  }

  lemma PaddedOperandsOf(c: Config, v1: string, v2: string, f: nat)
    requires WellFormed(c, v1) && WellFormed(c, v2) && f >= |FracPart(c, v1)| && f >= |FracPart(c, v2)|
    ensures PaddedOperands(c, v1, v2, f)
  {
    PaddedDigitsValue(c, v1, f);
    PaddedDigitsValue(c, v2, f);
  }

  lemma PaddedPiece(c: Config, v: string, n: string, f: nat)
    requires f >= |FracPart(c, v)|
    requires SplitDecimal(n, c.decimalSeparator) == (IntPart(c, v), FracPart(c, v) + Repeat('0', f - |FracPart(c, v)|))
    ensures SplitDecimal(n, c.decimalSeparator).0 + SplitDecimal(n, c.decimalSeparator).1 == PaddedDigits(c, v, f)
    ensures |SplitDecimal(n, c.decimalSeparator).1| == f
  {
  }




  /** normalizeDecimal's texts split into each operand's integer part and
    * its fraction padded to f places. */
  lemma NormalizedSplit(c: Config, v1: string, v2: string)
    requires ValidConfig(c)
    ensures var f := Max(|FracPart(c, v1)|, |FracPart(c, v2)|);
      var (n1, n2) := NormalizeDecimal(v1, v2, c.decimalSeparator);
      SplitDecimal(n1, c.decimalSeparator) == (IntPart(c, v1), FracPart(c, v1) + Repeat('0', f - |FracPart(c, v1)|)) &&
      SplitDecimal(n2, c.decimalSeparator) == (IntPart(c, v2), FracPart(c, v2) + Repeat('0', f - |FracPart(c, v2)|))
  {
    var f := Max(|FracPart(c, v1)|, |FracPart(c, v2)|);
    NormalizeDecimalParts(c, v1, v2);
    PadFractionSplit(c, v1, f);
    PadFractionSplit(c, v2, f);
  }

  /** Texts without a separator split into themselves and no fraction, which
    * is the fraction padded to 0 places. */
  lemma PlainSplit(c: Config, v1: string, v2: string)
    requires c.decimalSeparator !in v1 && c.decimalSeparator !in v2
    ensures Max(|FracPart(c, v1)|, |FracPart(c, v2)|) == 0
    ensures SplitDecimal(v1, c.decimalSeparator) == (IntPart(c, v1), FracPart(c, v1) + Repeat('0', 0))
    ensures SplitDecimal(v2, c.decimalSeparator) == (IntPart(c, v2), FracPart(c, v2) + Repeat('0', 0))
  {
    NoSeparatorNoFraction(c, v1);
    NoSeparatorNoFraction(c, v2);
    assert Repeat('0', 0) == [];
    assert FracPart(c, v1) + Repeat('0', 0) == FracPart(c, v1);
    assert FracPart(c, v2) + Repeat('0', 0) == FracPart(c, v2);
  }

}
