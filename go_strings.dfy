/** The part of Go's `strings` package the repository relies on, over
  * `seq<char>`. Each definition follows the documented behaviour of the Go
  * function of the same name for the arguments the repository passes. */
module GoStrings {

  /** `sub` occurs in `s` starting at `k`. */
  predicate OccursAt(s: string, sub: string, k: int)
  {
    0 <= k && k + |sub| <= |s| && s[k..k + |sub|] == sub
  }

  function IndexFrom(s: string, sub: string, k: nat): (r: int)
    requires k <= |s|
    decreases |s| - k
    ensures r == -1 || (k <= r && OccursAt(s, sub, r))
    ensures r == -1 ==> forall p :: k <= p ==> !OccursAt(s, sub, p)
    ensures r != -1 ==> forall p :: k <= p < r ==> !OccursAt(s, sub, p)
  {
    if OccursAt(s, sub, k) then k
    else if k + |sub| >= |s| then -1
    else IndexFrom(s, sub, k + 1)
  }

  /** strings.Index: the first position where `sub` occurs, or -1. */
  function Index(s: string, sub: string): (r: int)
    ensures r == -1 || OccursAt(s, sub, r)
    ensures r == -1 <==> forall p :: !OccursAt(s, sub, p)
    ensures forall p :: 0 <= p < r ==> !OccursAt(s, sub, p)
  {
    IndexFrom(s, sub, 0)
  }

  /** The first position of the character `c` in `s`, or -1. */
  function IndexChar(s: string, c: char): (r: int)
    ensures -1 <= r < |s|
    ensures r == -1 <==> c !in s
    ensures r >= 0 ==> s[r] == c
  {
    if s == [] then -1
    else if s[0] == c then 0
    else
      var i := IndexChar(s[1..], c);
      assert s == [s[0]] + s[1..];
      if i == -1 then -1 else i + 1
  }

  /** No `c` comes before the position IndexChar finds. */
  lemma {:induction false} IndexCharFirst(s: string, c: char)
    ensures forall p :: 0 <= p < IndexChar(s, c) ==> s[p] != c
  {
    if s != [] && s[0] != c {
      IndexCharFirst(s[1..], c);
      forall p | 0 <= p < IndexChar(s, c) ensures s[p] != c {
        if p > 0 { assert s[p] == s[1..][p - 1]; }
      }
    }
  }

  /** A position holding `c` with no `c` before it is the index of `c`. */
  lemma IndexCharAt(s: string, c: char, k: nat)
    requires k < |s| && s[k] == c && forall p :: 0 <= p < k ==> s[p] != c
    ensures IndexChar(s, c) == k
  {
    assert s[k] in s;
    IndexCharFirst(s, c);
  }

  /** strings.Index on a one-character string is IndexChar. */
  lemma IndexOfChar(s: string, c: char)
    ensures Index(s, [c]) == IndexChar(s, c)
  {
    var r := Index(s, [c]);
    var i := IndexChar(s, c);
    IndexCharFirst(s, c);
    if i >= 0 {
      assert s[i..i + 1] == [c];
      assert OccursAt(s, [c], i);
    }
    if r != -1 {
      assert s[r..r + 1] == [c];
      assert s[r] in s;
      assert forall p :: 0 <= p < i ==> s[..i][p] == s[p];
    }
  }

  /** strings.Contains */
  predicate Contains(s: string, sub: string)
  {
    Index(s, sub) != -1
  }

  lemma ContainsChar(s: string, c: char)
    ensures Contains(s, [c]) <==> c in s
  {
    IndexOfChar(s, c);
  }

  /** strings.HasPrefix */
  predicate HasPrefix(s: string, prefix: string)
  {
    |prefix| <= |s| && s[..|prefix|] == prefix
  }

  /** strings.HasSuffix */
  predicate HasSuffix(s: string, suffix: string)
  {
    |suffix| <= |s| && s[|s| - |suffix|..] == suffix
  }

  /** strings.TrimLeft with a one-character cutset. */
  function TrimLeft(s: string, c: char): (r: string)
    ensures |r| <= |s|
    ensures r == [] || r[0] != c
  {
    if s != [] && s[0] == c then TrimLeft(s[1..], c) else s
  }

  /** What TrimLeft leaves is a suffix of its input, and what it drops is
    * all `c`. */
  lemma {:induction false} TrimLeftSuffix(s: string, c: char)
    ensures var r := TrimLeft(s, c); r == s[|s| - |r|..]
    ensures var r := TrimLeft(s, c); forall k :: 0 <= k < |s| - |r| ==> s[k] == c
  {
    if s != [] && s[0] == c {
      TrimLeftSuffix(s[1..], c);
      var r := TrimLeft(s, c);
      forall k | 0 <= k < |s| - |r| ensures s[k] == c {
        if k > 0 { assert s[k] == s[1..][k - 1]; }
      }
    }
  }

  lemma AppendAssoc(u: string, v: string, w: string)
    ensures u + (v + w) == (u + v) + w
  {
  }

  lemma SliceJoin(s: string, k: nat)
    requires k <= |s|
    ensures s[..k] + s[k..] == s
  {
  }

  /** strings.TrimRight with a one-character cutset. */
  function TrimRight(s: string, c: char): (r: string)
    ensures |r| <= |s| && r == s[..|r|]
    ensures r == [] || r[|r| - 1] != c
    ensures forall k :: |r| <= k < |s| ==> s[k] == c
  {
    if s != [] && s[|s| - 1] == c then TrimRight(s[..|s| - 1], c) else s
  }

  /** Trimming the end of a concatenation trims the second part, and the
    * first part too when the second is all trimmed away. */
  lemma {:induction false} TrimRightConcat(s: string, t: string, c: char)
    ensures TrimRight(s + t, c) == if TrimRight(t, c) == [] then TrimRight(s, c) else s + TrimRight(t, c)
    decreases |t|
  {
    if t == [] {
      assert s + t == s;
    } else if t[|t| - 1] == c {
      var t' := t[..|t| - 1];
      assert (s + t)[..|s + t| - 1] == s + t';
      TrimRightConcat(s, t', c);
    }
  }

  /** strings.TrimSuffix */
  function TrimSuffix(s: string, suffix: string): (r: string)
    ensures HasSuffix(s, suffix) ==> r + suffix == s
    ensures !HasSuffix(s, suffix) ==> r == s
  {
    if HasSuffix(s, suffix) then s[..|s| - |suffix|] else s
  }

  /** strings.Repeat of a one-character string. */
  function Repeat(c: char, n: nat): (r: string)
    ensures |r| == n && forall k :: 0 <= k < n ==> r[k] == c
  {
    if n == 0 then [] else [c] + Repeat(c, n - 1)
  }

  /** strings.Replace(s, pattern, replacement, 1): the first occurrence only; an empty
    * `pattern` matches at the start. */
  function ReplaceFirst(s: string, pattern: string, replacement: string): (r: string)
    ensures Index(s, pattern) == -1 ==> r == s
    ensures Index(s, pattern) != -1 ==>
      r == s[..Index(s, pattern)] + replacement + s[Index(s, pattern) + |pattern|..]
  {
    var i := Index(s, pattern);
    if i == -1 then s else s[..i] + replacement + s[i + |pattern|..]
  }

  /** strings.ReplaceAll of a one-character string replacement "": every `c` removed. */
  function RemoveAll(s: string, c: char): (r: string)
    ensures c !in r && |r| <= |s|
  {
    if s == [] then [] else (if s[0] == c then [] else [s[0]]) + RemoveAll(s[1..], c)
  }

  /** strings.Split: with an empty separator Go splits after each character;
    * otherwise see SplitOn. */
  function Split(s: string, sep: string): (r: seq<string>)
    ensures sep != [] ==> |r| >= 1
    ensures sep == [] ==> |r| == |s|
  {
    if sep == [] then seq(|s|, k requires 0 <= k < |s| => [s[k]]) else SplitOn(s, sep)
  }

  /** The pieces between successive non-overlapping occurrences of `sep`,
    * read left to right. */
  function SplitOn(s: string, sep: string): (r: seq<string>)
    requires sep != []
    decreases |s|
    ensures |r| >= 1
  {
    var i := Index(s, sep);
    if i == -1 then [s] else [s[..i]] + SplitOn(s[i + |sep|..], sep)
  }

  /** strings.Join */
  function Join(parts: seq<string>, sep: string): string
  {
    if parts == [] then []
    else if |parts| == 1 then parts[0]
    else parts[0] + sep + Join(parts[1..], sep)
  }

  lemma {:induction false} JoinSplit(s: string, sep: string)
    requires sep != []
    ensures Join(SplitOn(s, sep), sep) == s
    decreases |s|
  {
    var i := Index(s, sep);
    if i != -1 {
      var rest := s[i + |sep|..];
      var tail := SplitOn(rest, sep);
      JoinSplit(rest, sep);
      assert SplitOn(s, sep) == [s[..i]] + tail;
      assert ([s[..i]] + tail)[1..] == tail;
      assert Join([s[..i]] + tail, sep) == s[..i] + sep + Join(tail, sep);
      assert s[i..i + |sep|] == sep;
      assert s == s[..i] + s[i..i + |sep|] + rest;
    }
  }

  lemma {:induction false} SplitPiecesAvoidSep(s: string, sep: string)
    requires sep != []
    ensures forall k :: 0 <= k < |SplitOn(s, sep)| ==> Index(SplitOn(s, sep)[k], sep) == -1
    decreases |s|
  {
    var i := Index(s, sep);
    if i != -1 {
      var rest := s[i + |sep|..];
      SplitPiecesAvoidSep(rest, sep);
      var head := s[..i];
      forall p ensures !OccursAt(head, sep, p) {
        if OccursAt(head, sep, p) {
          assert s[p..p + |sep|] == head[p..p + |sep|];
          assert OccursAt(s, sep, p);
        }
      }
    }
  }

  /** Splitting on a single character that does not occur gives the whole string. */
  lemma SplitCharAbsent(s: string, c: char)
    requires c !in s
    ensures SplitOn(s, [c]) == [s]
  {
    IndexOfChar(s, c);
  }

  /** Splitting on a single character that occurs exactly once at `k`. */
  lemma SplitCharOnce(s: string, c: char, k: nat)
    requires k < |s| && s[k] == c
    requires forall p :: 0 <= p < |s| && p != k ==> s[p] != c
    ensures SplitOn(s, [c]) == [s[..k], s[k + 1..]]
  {
    IndexOfChar(s, c);
    IndexCharAt(s, c, k);
    assert forall p :: k + 1 <= p < |s| ==> s[p] == s[k + 1..][p - k - 1];
    SplitCharAbsent(s[k + 1..], c);
  }

  /** A character that occurs splits the string into at least two pieces. */
  lemma SplitCharPresent(s: string, c: char)
    requires c in s
    ensures |Split(s, [c])| >= 2
  {
    IndexOfChar(s, c);
  }
}
