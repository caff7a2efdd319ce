/** slice.go: generic helpers over slices. Every helper only reads its
  * input and builds a fresh slice (or map) in a loop. Callbacks are total
  * Dafny functions. */
module Slices {
  import opened Outcomes
  import opened DivMod

  /** The concatenation of a list of chunks. */
  function Flatten<T>(chunks: seq<seq<T>>): (r: seq<T>)
  {
    if chunks == [] then []
    else Flatten(chunks[..|chunks| - 1]) + chunks[|chunks| - 1]
  }

  /** What Chunk promises of its result: the chunks concatenate to the
    * input, every chunk but the last has exactly `size` elements and the
    * last has between 1 and `size`. */
  ghost predicate IsChunking<T>(slice: seq<T>, size: int, chunks: seq<seq<T>>)
  {
    && Flatten(chunks) == slice
    && (forall j :: 0 <= j < |chunks| - 1 ==> |chunks[j]| == size)
    && (forall j :: 0 <= j < |chunks| ==> 1 <= |chunks[j]| <= size)
  }

  /** Chunk: cut the slice into pieces of `size`, stepping i by size. A
    * negative size makes the first slice expression end before it starts,
    * and Go panics. A zero size on a non-empty slice never advances, so it
    * is excluded. */
  method Chunk<T>(slice: seq<T>, size: int) returns (r: Outcome<seq<seq<T>>>)
    requires size != 0 || |slice| == 0
    ensures size > 0 || |slice| == 0 ==> r.Done? && IsChunking(slice, size, r.value)
    ensures size < 0 && |slice| > 0 ==> r.Panic?
  {
    var chunks: seq<seq<T>> := [];
    var i := 0;
    while i < |slice|
      invariant 0 <= i
      invariant i <= |slice| ==> Flatten(chunks) == slice[..i]
      invariant i > |slice| ==> Flatten(chunks) == slice
      invariant forall j :: 0 <= j < |chunks| ==> 1 <= |chunks[j]| <= size
      invariant forall j :: 0 <= j < |chunks| - 1 ==> |chunks[j]| == size
      invariant i <= |slice| ==> forall j :: 0 <= j < |chunks| ==> |chunks[j]| == size
      decreases |slice| - i
    {
      var end := i + size;
      if end > |slice| {
        end := |slice|;
      }
      if end < i {
        return Panic("slice bounds out of range");
      }
      FlattenAppend(chunks, slice[i..end]);
      assert slice[..i] + slice[i..end] == slice[..end];
      chunks := chunks + [slice[i..end]];
      i := i + size;
    }
    assert slice[..|slice|] == slice;
    r := Done(chunks);
  }

  /** Flattening after one more chunk appends that chunk. */
  lemma FlattenAppend<T>(chunks: seq<seq<T>>, c: seq<T>)
    ensures Flatten(chunks + [c]) == Flatten(chunks) + c
  {
    assert (chunks + [c])[..|chunks|] == chunks;
  }

  /** The chunking of a slice is unique: a chunking that meets the
    * promises is the one Chunk builds. */
  lemma {:induction false} ChunkingUnique<T>(slice: seq<T>, size: int, a: seq<seq<T>>, b: seq<seq<T>>)
    requires IsChunking(slice, size, a) && IsChunking(slice, size, b)
    ensures a == b
    decreases |slice|
  {
    FlattenEmpty(a);
    FlattenEmpty(b);
    if slice != [] {
      var la, lb := a[|a| - 1], b[|b| - 1];
      var a', b' := a[..|a| - 1], b[..|b| - 1];
      FlattenLength(a', size);
      FlattenLength(b', size);
      assert Flatten(a) == Flatten(a') + la;
      assert Flatten(b) == Flatten(b') + lb;
      LastChunkLength(slice, size, a, |a|);
      LastChunkLength(slice, size, b, |b|);
      assert |la| == |lb|;
      assert Flatten(a') == slice[..|slice| - |la|];
      assert Flatten(b') == slice[..|slice| - |lb|];
      ChunkingUnique(slice[..|slice| - |la|], size, a', b');
      assert la == slice[|slice| - |la|..] == lb;
    }
  }

  /** Chunks that are never empty flatten to nothing only when there are
    * none. */
  lemma FlattenEmpty<T>(chunks: seq<seq<T>>)
    requires forall j :: 0 <= j < |chunks| ==> |chunks[j]| >= 1
    ensures Flatten(chunks) == [] <==> chunks == []
  {
    if chunks != [] {
      assert Flatten(chunks) == Flatten(chunks[..|chunks| - 1]) + chunks[|chunks| - 1];
    }
  }

  /** A list of full chunks flattens to size times as many elements. */
  lemma {:induction false} FlattenLength<T>(chunks: seq<seq<T>>, size: int)
    requires forall j :: 0 <= j < |chunks| ==> |chunks[j]| == size
    ensures |Flatten(chunks)| == |chunks| * size
    decreases |chunks|
  {
    if chunks != [] {
      FlattenLength(chunks[..|chunks| - 1], size);
    }
  }

  /** The last chunk holds what is left after the full ones: the remainder
    * of the length by size, or a whole chunk when that is zero. */
  lemma LastChunkLength<T>(slice: seq<T>, size: int, chunks: seq<seq<T>>, n: nat)
    requires IsChunking(slice, size, chunks) && n == |chunks| > 0
    ensures |chunks[n - 1]| == |slice| - (n - 1) * size
    ensures |chunks[n - 1]| == (if |slice| % size == 0 then size else |slice| % size)
  {
    FlattenLength(chunks[..n - 1], size);
    assert Flatten(chunks) == Flatten(chunks[..n - 1]) + chunks[n - 1];
    var m := |chunks[n - 1]|;
    assert |slice| == (n - 1) * size + m;
    if m == size {
      assert |slice| == n * size;
      ModUnique(|slice|, size, n, 0);
    } else {
      ModUnique(|slice|, size, n - 1, m);
    }
  }

  /** The left fold Reduce computes: the reducer applied from the initial
    * value through the elements in order. */
  function FoldLeft<T>(reducer: (T, T) -> T, initialValue: T, slice: seq<T>): T
  {
    if slice == [] then initialValue
    else reducer(FoldLeft(reducer, initialValue, slice[..|slice| - 1]), slice[|slice| - 1])
  }

  /** Folding a concatenation folds the second part from where the first
    * left off. */
  lemma {:induction false} FoldLeftAppend<T>(reducer: (T, T) -> T, initialValue: T, s: seq<T>, t: seq<T>)
    ensures FoldLeft(reducer, initialValue, s + t) == FoldLeft(reducer, FoldLeft(reducer, initialValue, s), t)
    decreases |t|
  {
    if t != [] {
      var t' := t[..|t| - 1];
      assert (s + t)[..|s + t| - 1] == s + t';
      FoldLeftAppend(reducer, initialValue, s, t');
    } else {
      assert s + t == s;
    }
  }

  /** Reduce: a left fold from initialValue. */
  method Reduce<T>(slice: seq<T>, reducer: (T, T) -> T, initialValue: T) returns (result: T)
    ensures result == FoldLeft(reducer, initialValue, slice)
  {
    result := initialValue;
    for i := 0 to |slice|
      invariant result == FoldLeft(reducer, initialValue, slice[..i])
    {
      assert slice[..i + 1][..i] == slice[..i];
      result := reducer(result, slice[i]);
    }
    assert slice[..|slice|] == slice;
  }

  /** A sum as the reducer: 1 + 2 + 3 + 5 + 6 from 0 is 17. */
  lemma SumExample()
    ensures FoldLeft((a: int, b: int) => a + b, 0, [1, 2, 3, 5, 6]) == 17
  {
    var add := (a: int, b: int) => a + b;
    var s := [1, 2, 3, 5, 6];
    assert s[..4] == [1, 2, 3, 5] && s[..3] == [1, 2, 3] && s[..2] == [1, 2] && s[..1] == [1];
    assert FoldLeft(add, 0, [1]) == 1 by {
      assert [1][..0] == [];
    }
    assert [1, 2][..1] == [1];
    assert [1, 2, 3][..2] == [1, 2];
    assert [1, 2, 3, 5][..3] == [1, 2, 3];
  }

  /** Map: a slice of the same length whose i-th element is the mapper
    * applied to the i-th input, written at result[i]. */
  method Map<T(0)>(slice: seq<T>, mapper: T -> T) returns (r: seq<T>)
    ensures |r| == |slice|
    ensures forall i :: 0 <= i < |slice| ==> r[i] == mapper(slice[i])
  {
    var result := new T[|slice|];
    for i := 0 to |slice|
      invariant forall k :: 0 <= k < i ==> result[k] == mapper(slice[k])
    {
      result[i] := mapper(slice[i]);
    }
    r := result[..];
  }

  /** The elements satisfying the predicate, in input order. */
  function Filtered<T>(slice: seq<T>, pred: T -> bool): seq<T>
  {
    if slice == [] then []
    else
      var last := slice[|slice| - 1];
      Filtered(slice[..|slice| - 1], pred) + (if pred(last) then [last] else [])
  }

  /** Filtering keeps exactly the elements that satisfy the predicate. */
  lemma {:induction false} FilteredMembers<T>(slice: seq<T>, pred: T -> bool)
    ensures forall x :: x in Filtered(slice, pred) <==> x in slice && pred(x)
    ensures |Filtered(slice, pred)| <= |slice|
    decreases |slice|
  {
    if slice != [] {
      var init := slice[..|slice| - 1];
      FilteredMembers(init, pred);
      assert slice == init + [slice[|slice| - 1]];
    }
  }

  /** Filtering preserves order: filtering a concatenation concatenates the
    * filtered parts. */
  lemma {:induction false} FilteredAppend<T>(s: seq<T>, t: seq<T>, pred: T -> bool)
    ensures Filtered(s + t, pred) == Filtered(s, pred) + Filtered(t, pred)
    decreases |t|
  {
    if t != [] {
      var t' := t[..|t| - 1];
      assert (s + t)[..|s + t| - 1] == s + t';
      FilteredAppend(s, t', pred);
    } else {
      assert s + t == s;
    }
  }

  /** Filter: append each element that satisfies the predicate. */
  method Filter<T>(slice: seq<T>, pred: T -> bool) returns (result: seq<T>)
    ensures result == Filtered(slice, pred)
  {
    result := [];
    for i := 0 to |slice|
      invariant result == Filtered(slice[..i], pred)
    {
      assert slice[..i + 1][..i] == slice[..i];
      if pred(slice[i]) {
        result := result + [slice[i]];
      }
    }
    assert slice[..|slice|] == slice;
  }

  /** `n` copies of a value. */
  function Fill<T>(n: nat, value: T): (r: seq<T>)
    ensures |r| == n && forall i :: 0 <= i < n ==> r[i] == value
  {
    seq(n, _ => value)
  }

  /** The padding loop shared by PadEnd and PadStart. */
  method Padding<T>(paddingLength: nat, padValue: T) returns (newSlice: seq<T>)
    ensures newSlice == Fill(paddingLength, padValue)
  {
    newSlice := [];
    for i := 0 to paddingLength
      invariant newSlice == Fill(i, padValue)
    {
      newSlice := newSlice + [padValue];
    }
  }

  /** PadEnd: at least targetLength elements, the input first and padValue
    * after it; an input already long enough is returned as it is. */
  method PadEnd<T>(slice: seq<T>, targetLength: int, padValue: T) returns (r: seq<T>)
    ensures targetLength <= |slice| ==> r == slice
    ensures targetLength > |slice| ==> |r| == targetLength && r[..|slice|] == slice
    ensures forall i :: |slice| <= i < |r| ==> r[i] == padValue
  {
    var paddingLength := targetLength - |slice|;
    if paddingLength <= 0 {
      return slice;
    }
    var newSlice := Padding(paddingLength, padValue);
    r := slice + newSlice;
  }

  /** PadStart: at least targetLength elements, padValue first and the input
    * as the suffix; an input already long enough is returned as it is. */
  method PadStart<T>(slice: seq<T>, targetLength: int, padValue: T) returns (r: seq<T>)
    ensures targetLength <= |slice| ==> r == slice
    ensures targetLength > |slice| ==> |r| == targetLength && r[targetLength - |slice|..] == slice
    ensures forall i :: 0 <= i < |r| - |slice| ==> r[i] == padValue
  {
    var paddingLength := targetLength - |slice|;
    if paddingLength <= 0 {
      return slice;
    }
    var newSlice := Padding(paddingLength, padValue);
    r := newSlice + slice;
  }

  /** The group of key k: the items whose key is k, in input order. */
  function Group<T, K(==)>(slice: seq<T>, getKey: T -> K, k: K): seq<T>
  {
    if slice == [] then []
    else
      var last := slice[|slice| - 1];
      Group(slice[..|slice| - 1], getKey, k) + (if getKey(last) == k then [last] else [])
  }

  /** A group holds exactly the items with that key. */
  lemma {:induction false} GroupMembers<T, K>(slice: seq<T>, getKey: T -> K, k: K)
    ensures forall x :: x in Group(slice, getKey, k) <==> x in slice && getKey(x) == k
    decreases |slice|
  {
    if slice != [] {
      var init := slice[..|slice| - 1];
      GroupMembers(init, getKey, k);
      assert slice == init + [slice[|slice| - 1]];
    }
  }

  /** The map GroupBy holds after the items of `prefix`: a key is present
    * exactly when its group is non-empty, and is mapped to its group. */
  ghost predicate GroupsOf<T, K(!new)>(prefix: seq<T>, getKey: T -> K, groups: map<K, seq<T>>)
  {
    forall k ::
      && (k in groups ==> groups[k] == Group(prefix, getKey, k) && groups[k] != [])
      && (k !in groups ==> Group(prefix, getKey, k) == [])
  }

  /** Appending an item to the group of its key keeps the map in step. */
  lemma GroupByStep<T, K(!new)>(prefix: seq<T>, x: T, getKey: T -> K, groups: map<K, seq<T>>)
    requires GroupsOf(prefix, getKey, groups)
    ensures var key := getKey(x);
      GroupsOf(prefix + [x], getKey, groups[key := (if key in groups then groups[key] else []) + [x]])
  {
    forall k | true
      ensures Group(prefix + [x], getKey, k) == Group(prefix, getKey, k) + (if getKey(x) == k then [x] else [])
    {
      assert (prefix + [x])[..|prefix|] == prefix;
    }
  }

  /** GroupBy: a map from each key that occurs to its group, every item
    * appended to the group of its key. */
  method GroupBy<T, K(==, !new)>(slice: seq<T>, getKey: T -> K) returns (groups: map<K, seq<T>>)
    ensures forall k :: k in groups <==> Group(slice, getKey, k) != []
    ensures forall k :: k in groups ==> groups[k] == Group(slice, getKey, k)
  {
    groups := map[];
    for i := 0 to |slice|
      invariant GroupsOf(slice[..i], getKey, groups)
    {
      GroupByStep(slice[..i], slice[i], getKey, groups);
      assert slice[..i] + [slice[i]] == slice[..i + 1];
      var key := getKey(slice[i]);
      var existing := if key in groups then groups[key] else [];
      groups := groups[key := existing + [slice[i]]];
    }
    assert slice[..|slice|] == slice;
  }
}
