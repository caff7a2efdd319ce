/** Digit strings of a BigNumber: how a symbol of the alphabet stands for a
  * digit value (`toInteger`, `toNumber` in bigNumber.go), the value of a digit
  * string read positionally in a base, and the fixed-width representation of a
  * number, which is what the carry, borrow and long-division loops produce. */
module BigDigits {
  import opened GoStrings

  function Pow(b: nat, e: nat): (r: nat)
    ensures b >= 1 ==> r >= 1
  {
    if e == 0 then 1 else b * Pow(b, e - 1)
  }

  /** toInteger: the position of `number` in the alphabet, 0 when it is absent.
    * The source calls it on one symbol, and once on a whole integer part. */
  function ToInteger(alphabet: string, number: string): (r: nat)
    ensures r == 0 || OccursAt(alphabet, number, r)
    ensures Index(alphabet, number) == -1 ==> r == 0
    ensures Index(alphabet, number) != -1 ==>
      OccursAt(alphabet, number, r) && forall p :: 0 <= p < r ==> !OccursAt(alphabet, number, p)
  {
    var i := Index(alphabet, number);
    if i == -1 then 0 else i
  }

  /** The digit value of one symbol: toInteger of a one-symbol string. */
  function Digit(alphabet: string, ch: char): (r: nat)
    ensures r == 0 || r < |alphabet|
  {
    var i := IndexChar(alphabet, ch);
    if i == -1 then 0 else i
  }

  lemma DigitIsToInteger(alphabet: string, ch: char)
    ensures ToInteger(alphabet, [ch]) == Digit(alphabet, ch)
  {
    IndexOfChar(alphabet, ch);
  }

  /** toNumber: the symbol for a digit value; the source panics outside the
    * alphabet, so callers must stay inside it. */
  function ToNumber(alphabet: string, index: int): char
    requires 0 <= index < |alphabet|
  {
    alphabet[index]
  }

  /** The first `base` symbols are pairwise different, so that each digit
    * value has one symbol. */
  predicate DistinctDigits(alphabet: string, base: nat)
  {
    base <= |alphabet| && forall q :: 0 <= q < base ==> FirstOccurrence(alphabet, q)
  }

  /** The symbol at position `q` does not occur before it. */
  predicate FirstOccurrence(alphabet: string, q: nat)
    requires q < |alphabet|
  {
    forall p :: 0 <= p < q ==> alphabet[p] != alphabet[q]
  }

  /** Every symbol of `s` is one of the first `base` symbols. */
  predicate IsDigits(alphabet: string, base: nat, s: string)
  {
    base <= |alphabet| && forall k :: 0 <= k < |s| ==> s[k] in alphabet[..base]
  }

  /** Reading back the symbol written for a digit value gives that value:
    * toInteger(toNumber(d)) == d. */
  lemma DigitOfSymbol(alphabet: string, base: nat, d: nat)
    requires DistinctDigits(alphabet, base) && d < base
    ensures Digit(alphabet, ToNumber(alphabet, d)) == d
  {
    var c := alphabet[d];
    assert FirstOccurrence(alphabet, d);
    IndexCharAt(alphabet, c, d);
  }

  /** A symbol among the first `base` reads as a value below `base`. */
  lemma DigitBelowBase(alphabet: string, base: nat, ch: char)
    requires base <= |alphabet| && ch in alphabet[..base]
    ensures Digit(alphabet, ch) < base
  {
    var k :| 0 <= k < base && alphabet[..base][k] == ch;
    assert alphabet[k] == ch;
    assert ch in alphabet;
    IndexCharFirst(alphabet, ch);
  }

  /** Positional value of `s`, most significant symbol first. */
  function Val(alphabet: string, base: nat, s: string): nat
    decreases |s|
  {
    if s == [] then 0
    else Val(alphabet, base, s[..|s| - 1]) * base + Digit(alphabet, s[|s| - 1])
  }

  lemma MulLe(x: nat, y: nat, k: nat)
    requires x <= y
    ensures x * k <= y * k
  {
  }

  lemma Regroup(a: int, p: int, v: int, b: int, d: int)
    ensures (a * p + v) * b + d == a * (p * b) + (v * b + d)
  {
  }

  lemma {:induction false} ValConcat(alphabet: string, base: nat, s: string, t: string)
    ensures Val(alphabet, base, s + t) ==
      Val(alphabet, base, s) * Pow(base, |t|) + Val(alphabet, base, t)
    decreases |t|
  {
    if t == [] {
      assert s + t == s;
    } else {
      var t' := t[..|t| - 1];
      var st := s + t;
      assert st[..|st| - 1] == s + t';
      assert st[|st| - 1] == t[|t| - 1];
      ValConcat(alphabet, base, s, t');
      var d := Digit(alphabet, t[|t| - 1]);
      var a, p, v := Val(alphabet, base, s), Pow(base, |t'|), Val(alphabet, base, t');
      assert Val(alphabet, base, st) == Val(alphabet, base, s + t') * base + d;
      assert Val(alphabet, base, t) == v * base + d;
      assert Pow(base, |t|) == base * p;
      Regroup(a, p, v, base, d);
    }
  }

  /** Putting one symbol in front adds its value at the next position. */
  lemma ValPrepend(alphabet: string, base: nat, ch: char, s: string)
    ensures Val(alphabet, base, [ch] + s) ==
      Digit(alphabet, ch) * Pow(base, |s|) + Val(alphabet, base, s)
  {
    ValConcat(alphabet, base, [ch], s);
    assert [ch][..0] == [];
  }

  /** A digit string of length n is worth less than base^n. */
  lemma {:induction false} ValBound(alphabet: string, base: nat, s: string)
    requires IsDigits(alphabet, base, s)
    ensures Val(alphabet, base, s) < Pow(base, |s|)
    decreases |s|
  {
    if s != [] {
      var s' := s[..|s| - 1];
      assert IsDigits(alphabet, base, s') by {
        forall k | 0 <= k < |s'| ensures s'[k] in alphabet[..base] { assert s'[k] == s[k]; }
      }
      ValBound(alphabet, base, s');
      DigitBelowBase(alphabet, base, s[|s| - 1]);
      var v, p := Val(alphabet, base, s'), Pow(base, |s'|);
      assert Val(alphabet, base, s) == v * base + Digit(alphabet, s[|s| - 1]);
      assert Pow(base, |s|) == base * p;
      NextDigitBound(v, p, base, Digit(alphabet, s[|s| - 1]));
    }
  }

  /** v < p and d < b give v * b + d < p * b. */
  lemma NextDigitBound(v: nat, p: nat, b: nat, d: nat)
    requires v < p && d < b
    ensures v * b + d < b * p
  {
    MulLe(v + 1, p, b);
  }

  /** The `w`-symbol representation of `x` in `base`, leading zeros included
    * (the symbols are those of digit values x / base^k % base). */
  function Represent(alphabet: string, base: nat, x: nat, w: nat): (r: string)
    requires 2 <= base <= |alphabet|
    ensures |r| == w
  {
    if w == 0 then []
    else Represent(alphabet, base, Quot(x, base), w - 1) + [ToNumber(alphabet, Rem(x, base))]
  }

  /** The lowest symbol of x is its remainder, the rest the quotient on one
    * symbol less. */
  lemma RepresentStep(alphabet: string, base: nat, x: nat, w: nat, w': nat)
    requires 2 <= base <= |alphabet| && w == w' + 1
    ensures Represent(alphabet, base, x, w) ==
      Represent(alphabet, base, Quot(x, base), w') + [ToNumber(alphabet, Rem(x, base))]
  {
  }

  /** A multiple of base^w added to x does not show in its w symbols. */
  lemma {:induction false} RepresentDropHigh(alphabet: string, base: nat, x: nat, y: nat, w: nat)
    requires 2 <= base <= |alphabet| && y == x + Pow(base, w)
    ensures Represent(alphabet, base, y, w) == Represent(alphabet, base, x, w)
    decreases w
  {
    if w > 0 {
      PowStep(base, w, w - 1);
      QuotRemShift(x, base, Pow(base, w - 1));
      RepresentDropHigh(alphabet, base, Quot(x, base), Quot(y, base), w - 1);
      RepresentStep(alphabet, base, x, w, w - 1);
      RepresentStep(alphabet, base, y, w, w - 1);
    }
  }

  lemma PowStep(b: nat, k: nat, k': nat)
    requires k == k' + 1
    ensures Pow(b, k) == Pow(b, k') * b
  {
  }

  /** A quotient and a remainder that make up x are Quot and Rem of x. */
  lemma QuotRemOf(x: nat, b: nat, q: nat, r: nat)
    requires b >= 2 && r < b && x == q * b + r
    ensures Quot(x, b) == q && Rem(x, b) == r
  {
    DivModUnique(x, b, q, r);
  }

  /** Integer division by a base, named so that the solver meets it only
    * where a proof unfolds it. */
  function Quot(x: nat, b: nat): (q: nat)
    requires b >= 2
    ensures x > 0 ==> q < x
  {
    DivShrinks(x, b);
    x / b
  }

  lemma DivShrinks(x: nat, b: nat)
    requires b >= 2
    ensures 0 <= x / b && (x > 0 ==> x / b < x)
  {
  }

  /** The remainder that goes with Quot. */
  function Rem(x: nat, b: nat): (r: nat)
    requires b >= 2
    ensures r < b
  {
    x % b
  }

  /** Every symbol written is one of the first `base` symbols. */
  lemma {:induction false} RepresentDigits(alphabet: string, base: nat, x: nat, w: nat)
    requires 2 <= base <= |alphabet|
    ensures IsDigits(alphabet, base, Represent(alphabet, base, x, w))
  {
    if w > 0 {
      var head := Represent(alphabet, base, Quot(x, base), w - 1);
      RepresentDigits(alphabet, base, Quot(x, base), w - 1);
      var d := Rem(x, base);
      var r := head + [ToNumber(alphabet, d)];
      RepresentStep(alphabet, base, x, w, w - 1);
      assert forall k :: 0 <= k < w - 1 ==> r[k] == head[k];
      assert alphabet[d] == alphabet[..base][d];
    }
  }

  lemma DivBelow(x: nat, b: nat, p: nat)
    requires b >= 1 && x < p * b
    ensures x / b < p
  {
    if x / b >= p {
      MulLe(p, x / b, b);
    }
  }

  /** A number below base^w reads back from its representation. */
  lemma {:induction false} ValRepresent(alphabet: string, base: nat, x: nat, w: nat)
    requires 2 <= base && DistinctDigits(alphabet, base) && x < Pow(base, w)
    ensures Val(alphabet, base, Represent(alphabet, base, x, w)) == x
    decreases w
  {
    if w > 0 {
      var q, d := Quot(x, base), Rem(x, base);
      RepresentStep(alphabet, base, x, w, w - 1);
      ValSnoc(alphabet, base, Represent(alphabet, base, q, w - 1), ToNumber(alphabet, d));
      QuotBelow(x, base, w - 1);
      ValRepresent(alphabet, base, q, w - 1);
      DigitOfSymbol(alphabet, base, d);
      DivModSplit(x, base);
    }
  }

  /** One more symbol at the end multiplies by the base and adds its digit. */
  lemma ValSnoc(alphabet: string, base: nat, s: string, ch: char)
    ensures Val(alphabet, base, s + [ch]) == Val(alphabet, base, s) * base + Digit(alphabet, ch)
  {
    assert (s + [ch])[..|s|] == s;
  }

  lemma QuotBelow(x: nat, b: nat, e: nat)
    requires b >= 2 && x < Pow(b, e + 1)
    ensures Quot(x, b) < Pow(b, e)
  {
    PowStep(b, e + 1, e);
    DivBelow(x, b, Pow(b, e));
  }

  lemma {:induction false} RepresentUnique(alphabet: string, base: nat, s: string)
    requires 2 <= base && DistinctDigits(alphabet, base) && IsDigits(alphabet, base, s)
    ensures Represent(alphabet, base, Val(alphabet, base, s), |s|) == s
    decreases |s|
  {
    if s != [] {
      var s' := s[..|s| - 1];
      var ch := s[|s| - 1];
      assert IsDigits(alphabet, base, s') by {
        forall k | 0 <= k < |s'| ensures s'[k] in alphabet[..base] { assert s'[k] == s[k]; }
      }
      RepresentUnique(alphabet, base, s');
      var d := Digit(alphabet, ch);
      DigitBelowBase(alphabet, base, ch);
      var v := Val(alphabet, base, s');
      assert Val(alphabet, base, s) == v * base + d;
      DivModOf(v, base, d);
      var k :| 0 <= k < base && alphabet[..base][k] == ch;
      assert alphabet[k] == ch;
      DigitOfSymbol(alphabet, base, k);
      assert s == s' + [ch];
    }
  }

  lemma DivModOf(v: nat, b: nat, d: nat)
    requires d < b
    ensures (v * b + d) / b == v && (v * b + d) % b == d
  {
    DivModUnique(v * b + d, b, v, d);
  }

  lemma DivModSplit(x: int, m: int)
    requires m > 0
    ensures x == (x / m) * m + x % m && 0 <= x % m < m
  {
  }

  /** Euclidean division has one quotient and one remainder. */
  lemma DivModUnique(x: int, m: int, q: int, r: int)
    requires m > 0 && 0 <= r < m && x == q * m + r
    ensures x / m == q && x % m == r
  {
    var q0, r0 := x / m, x % m;
    assert x == q0 * m + r0;
    if q > q0 {
      MulLeInt(q0 + 1, q, m);
    } else if q < q0 {
      MulLeInt(q + 1, q0, m);
    }
  }

  lemma MulLeInt(x: int, y: int, k: nat)
    requires x <= y
    ensures x * k <= y * k
  {
  }

  /** Two digit strings of equal length and equal value are equal. */
  lemma SameValueSameDigits(alphabet: string, base: nat, s: string, t: string)
    requires 2 <= base && DistinctDigits(alphabet, base)
    requires IsDigits(alphabet, base, s) && IsDigits(alphabet, base, t)
    requires |s| == |t| && Val(alphabet, base, s) == Val(alphabet, base, t)
    ensures s == t
  {
    RepresentUnique(alphabet, base, s);
    RepresentUnique(alphabet, base, t);
  }

  /** Symbols standing for zero in front of a string do not change its value. */
  lemma {:induction false} ValLeadingZeros(alphabet: string, base: nat, z: string, s: string)
    requires forall k :: 0 <= k < |z| ==> Digit(alphabet, z[k]) == 0
    ensures Val(alphabet, base, z + s) == Val(alphabet, base, s)
    decreases |z|
  {
    ValConcat(alphabet, base, z, s);
    ValZeros(alphabet, base, z);
  }

  lemma {:induction false} ValZeros(alphabet: string, base: nat, z: string)
    requires forall k :: 0 <= k < |z| ==> Digit(alphabet, z[k]) == 0
    ensures Val(alphabet, base, z) == 0
    decreases |z|
  {
    if z != [] {
      ValZeros(alphabet, base, z[..|z| - 1]);
    }
  }

  /** Symbols standing for zero after a string multiply its value by base^n. */
  lemma ValTrailingZeros(alphabet: string, base: nat, s: string, z: string)
    requires forall k :: 0 <= k < |z| ==> Digit(alphabet, z[k]) == 0
    ensures Val(alphabet, base, s + z) == Val(alphabet, base, s) * Pow(base, |z|)
  {
    ValConcat(alphabet, base, s, z);
    ValZeros(alphabet, base, z);
  }

  lemma PowAdd(b: nat, m: nat, n: nat)
    ensures Pow(b, m + n) == Pow(b, m) * Pow(b, n)
    decreases n
  {
    if n > 0 {
      PowAdd(b, m, n - 1);
    }
  }

  lemma PowMono(b: nat, m: nat, n: nat)
    requires b >= 1 && m <= n
    ensures Pow(b, m) <= Pow(b, n)
    decreases n
  {
    if n > m {
      PowMono(b, m, n - 1);
      MulLe(1, b, Pow(b, n - 1));
    }
  }

  /** `s` without its last t symbols. */
  function Prefix(s: string, t: nat): (r: string)
    ensures |r| == if t < |s| then |s| - t else 0
  {
    if t < |s| then s[..|s| - t] else []
  }

  /** The digit t places from the right of `s`, 0 past its first symbol. */
  function DigitAt(alphabet: string, s: string, t: nat): nat
  {
    if t < |s| then Digit(alphabet, s[|s| - 1 - t]) else 0
  }

  /** The digits from column t on are the digit of column t plus base times
    * the digits from column t + 1 on. */
  lemma PrefixStep(alphabet: string, base: nat, s: string, t: nat)
    ensures Val(alphabet, base, Prefix(s, t)) == Val(alphabet, base, Prefix(s, t + 1)) * base + DigitAt(alphabet, s, t)
  {
    if t < |s| {
      assert Prefix(s, t)[..|s| - t - 1] == Prefix(s, t + 1);
    }
  }

  lemma PrefixDigits(alphabet: string, base: nat, s: string, t: nat)
    requires IsDigits(alphabet, base, s)
    ensures IsDigits(alphabet, base, Prefix(s, t))
  {
    assert forall k :: 0 <= k < |Prefix(s, t)| ==> Prefix(s, t)[k] == s[k];
  }

  /** Each column of a digit string holds a digit below the base. */
  lemma DigitAtBelow(alphabet: string, base: nat, s: string, t: nat)
    requires base >= 1 && IsDigits(alphabet, base, s)
    ensures DigitAt(alphabet, s, t) < base
  {
    if t < |s| {
      DigitBelowBase(alphabet, base, s[|s| - 1 - t]);
    }
  }

  /** Every column of `s` holds a digit below the base: IsDigits read column
    * by column (DigitsBelowOf). */
  ghost predicate DigitsBelow(alphabet: string, base: nat, s: string)
  {
    forall t: nat :: DigitAt(alphabet, s, t) < base
  }

  lemma DigitsBelowOf(alphabet: string, base: nat, s: string)
    requires base >= 1 && IsDigits(alphabet, base, s)
    ensures DigitsBelow(alphabet, base, s)
  {
    forall t: nat ensures DigitAt(alphabet, s, t) < base {
      DigitAtBelow(alphabet, base, s, t);
    }
  }

  /** The columns from t on are worth less than base to the power of their
    * number. */
  lemma {:induction false} PrefixBound(alphabet: string, base: nat, s: string, t: nat)
    requires base >= 1 && DigitsBelow(alphabet, base, s)
    ensures Val(alphabet, base, Prefix(s, t)) < Pow(base, |Prefix(s, t)|)
    decreases |s| - t
  {
    if t < |s| {
      PrefixBound(alphabet, base, s, t + 1);
      PrefixStep(alphabet, base, s, t);
      PowStep(base, |Prefix(s, t)|, |Prefix(s, t + 1)|);
      NextDigitBound(Val(alphabet, base, Prefix(s, t + 1)), Pow(base, |Prefix(s, t + 1)|), base, DigitAt(alphabet, s, t));
    }
  }

  lemma PrefixZero(s: string)
    ensures Prefix(s, 0) == s
  {
  }

  /** Adding a multiple of b moves the quotient and keeps the remainder. */
  lemma QuotRemShift(x: nat, b: nat, u: nat)
    requires b >= 2
    ensures Quot(x + u * b, b) == Quot(x, b) + u && Rem(x + u * b, b) == Rem(x, b)
  {
    DivModSplit(x, b);
    DivModUnique(x + u * b, b, x / b + u, x % b);
  }

  lemma {:induction false} PowAboveExp(base: nat, e: nat)
    requires base >= 2
    ensures Pow(base, e) > e
    decreases e
  {
    if e > 0 {
      PowAboveExp(base, e - 1);
      MulLe(2, base, Pow(base, e - 1));
    }
  }

  /** The fewest symbols, at least m, that represent x in base. */
  function Width(base: nat, x: nat, m: nat): (w: nat)
    requires base >= 2
    ensures w >= m && x < Pow(base, w)
    decreases x - m
  {
    if x < Pow(base, m) then m
    else
      PowAboveExp(base, m);
      Width(base, x, m + 1)
  }

  /** The width is m, or x needs all of its symbols. */
  lemma {:induction false} WidthLeast(base: nat, x: nat, m: nat)
    requires base >= 2
    ensures Width(base, x, m) == m || x >= Pow(base, Width(base, x, m) - 1)
    decreases x - m
  {
    if x >= Pow(base, m) {
      PowAboveExp(base, m);
      WidthLeast(base, x, m + 1);
    }
  }

  /** Writing the lowest symbol leaves the quotient, on one symbol less. */
  lemma WidthStep(base: nat, x: nat, k: nat, k': nat)
    requires base >= 2 && (x > 0 || k > 0)
    requires k' == k - 1 || (k == 0 && k' == 0)
    ensures Width(base, x, k) == Width(base, Quot(x, base), k') + 1
  {
    var w := Width(base, Quot(x, base), k');
    WidthLeast(base, Quot(x, base), k');
    QuotBelowPow(x, base, w);
    if w > k' {
      QuotAbovePow(x, base, w - 1);
    }
    WidthOf(base, x, k, w + 1);
  }

  lemma QuotBelowPow(x: nat, b: nat, e: nat)
    requires b >= 2 && Quot(x, b) < Pow(b, e)
    ensures x < Pow(b, e + 1)
  {
    DivModSplit(x, b);
    NextDigitBound(Quot(x, b), Pow(b, e), b, Rem(x, b));
  }

  lemma QuotAbovePow(x: nat, b: nat, e: nat)
    requires b >= 2 && Quot(x, b) >= Pow(b, e)
    ensures x >= Pow(b, e + 1)
  {
    DivModSplit(x, b);
    MulLe(Pow(b, e), Quot(x, b), b);
  }

  /** A width t >= m that holds x, where t - 1 symbols would not (or t is m),
    * is the width. */
  lemma {:induction false} WidthOf(base: nat, x: nat, m: nat, t: nat)
    requires base >= 2 && m <= t && x < Pow(base, t)
    requires t == m || (t > 0 && x >= Pow(base, t - 1))
    ensures Width(base, x, m) == t
    decreases t - m
  {
    if x >= Pow(base, m) {
      PowAboveExp(base, m);
      if t == m {
      } else {
        WidthOf(base, x, m + 1, t);
      }
    } else if t != m {
      PowMono(base, m, t - 1);
    }
  }
}
