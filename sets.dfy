/** set.go: a set kept as the keys of a map to bool. `Add` writes into the
  * map in place; `Union`, `Intersection` and `Difference` fill a fresh set
  * by looping over keys. Go visits map keys in no fixed order, so the loops
  * here pick an arbitrary remaining key each time. */
module Sets {

  class Set<T(==)> {
    var entries: map<T, bool>

    /** make(Set[T], 0): an empty set. */
    constructor Empty()
      ensures entries == map[]
    {
      entries := map[];
    }

    /** Has: key presence, whatever the stored flag. */
    function Has(value: T): (r: bool)
      reads this
      ensures r <==> value in entries.Keys
    {
      value in entries
    }

    /** Add: store true under the value; the result is that flag. */
    method Add(value: T) returns (r: bool)
      modifies this
      ensures entries == old(entries)[value := true]
      ensures r && Has(value)
      ensures forall k :: k != value ==> (Has(k) <==> k in old(entries))
    {
      entries := entries[value := true];
      r := entries[value];
    }

    /** Values: every member exactly once, in an unspecified order. */
    method Values() returns (values: seq<T>)
      ensures forall k :: k in values <==> Has(k)
      ensures |values| == |entries.Keys|
      ensures forall i, j :: 0 <= i < j < |values| ==> values[i] != values[j]
    {
      values := [];
      var rest := entries.Keys;
      while rest != {}
        invariant rest <= entries.Keys
        invariant forall k :: k in values <==> k in entries.Keys - rest
        invariant |values| + |rest| == |entries.Keys|
        invariant forall i, j :: 0 <= i < j < |values| ==> values[i] != values[j]
        decreases rest
      {
        var k :| k in rest;
        values := values + [k];
        rest := rest - {k};
      }
    }

    /** Union: a fresh set holding k iff k is in this set or in other. */
    method Union(other: Set<T>) returns (u: Set<T>)
      ensures fresh(u)
      ensures forall k :: u.Has(k) <==> Has(k) || other.Has(k)
    {
      u := new Set.Empty();
      var rest := entries.Keys;
      while rest != {}
        invariant fresh(u)
        invariant rest <= entries.Keys
        invariant u.entries.Keys == entries.Keys - rest
        decreases rest
      {
        var k :| k in rest;
        var _ := u.Add(k);
        rest := rest - {k};
      }
      rest := other.entries.Keys;
      while rest != {}
        invariant fresh(u)
        invariant rest <= other.entries.Keys
        invariant u.entries.Keys == entries.Keys + (other.entries.Keys - rest)
        decreases rest
      {
        var k :| k in rest;
        var _ := u.Add(k);
        rest := rest - {k};
      }
    }

    /** Intersection: a fresh set holding k iff k is in both sets. */
    method Intersection(other: Set<T>) returns (u: Set<T>)
      ensures fresh(u)
      ensures forall k :: u.Has(k) <==> Has(k) && other.Has(k)
    {
      u := new Set.Empty();
      var rest := entries.Keys;
      while rest != {}
        invariant fresh(u)
        invariant rest <= entries.Keys
        invariant u.entries.Keys == (entries.Keys - rest) * other.entries.Keys
        decreases rest
      {
        var k :| k in rest;
        if other.Has(k) {
          var _ := u.Add(k);
        }
        rest := rest - {k};
      }
    }

    /** Difference: a fresh set holding k iff k is in this set and not in
      * other. */
    method Difference(other: Set<T>) returns (u: Set<T>)
      ensures fresh(u)
      ensures forall k :: u.Has(k) <==> Has(k) && !other.Has(k)
    {
      u := new Set.Empty();
      var rest := entries.Keys;
      while rest != {}
        invariant fresh(u)
        invariant rest <= entries.Keys
        invariant u.entries.Keys == (entries.Keys - rest) - other.entries.Keys
        decreases rest
      {
        var k :| k in rest;
        if !other.Has(k) {
          var _ := u.Add(k);
        }
        rest := rest - {k};
      }
    }
  }

  /** NewSet: a fresh set holding exactly the given values. */
  method NewSet<T(==)>(value: seq<T>) returns (s: Set<T>)
    ensures fresh(s)
    ensures forall k :: s.Has(k) <==> k in value
  {
    s := new Set.Empty();
    for i := 0 to |value|
      invariant fresh(s)
      invariant forall k :: s.Has(k) <==> k in value[..i]
    {
      var _ := s.Add(value[i]);
      assert value[..i + 1] == value[..i] + [value[i]];
    }
    assert value[..|value|] == value;
  }

  /** The set test: A..G and F..L intersect in F and G. */
  method IntersectionExample() returns (hasF: bool, hasG: bool, hasA: bool)
    ensures hasF && hasG && !hasA
  {
    var s1 := NewSet(["A", "B", "C", "D", "E", "F", "G"]);
    var s2 := NewSet(["F", "G", "H", "I", "J", "K", "L"]);
    var both := s1.Intersection(s2);
    hasF := both.Has("F");
    hasG := both.Has("G");
    hasA := both.Has("A");
  }
}
