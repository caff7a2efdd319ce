/** utils/validator.go: predicates on Go `int` values (64 bits) and two
  * combinators. */
module Validators {

  /** math.MaxInt64. */
  const MaxInt64: int := 0x7FFF_FFFF_FFFF_FFFF

  /** A Go int. */
  type Int64 = x: int | -0x8000_0000_0000_0000 <= x <= MaxInt64

  predicate IsIntegerNotMax(val: Int64)
  {
    val < MaxInt64
  }

  predicate IsNonNegative(val: Int64)
  {
    val >= 0
  }

  predicate IsNotZero(val: Int64)
  {
    val != 0
  }

  predicate IsNormarNumber(val: Int64)
  {
    IsIntegerNotMax(val) && IsNonNegative(val) && IsNotZero(val)
  }

  /** A "normal" number is strictly between zero and the largest int. */
  lemma NormarNumberRange(val: Int64)
    ensures IsNormarNumber(val) <==> 0 < val < MaxInt64
    ensures IsNonNegative(val) <==> val >= 0
    ensures IsNotZero(val) <==> val != 0
  {
  }

  predicate LessThan(val: Int64, less: Int64)
  {
    val < less
  }

  predicate MoreThan(val: Int64, more: Int64)
  {
    val > more
  }

  /** LessThan and MoreThan are strict and mirror each other. */
  lemma StrictComparisons(a: Int64, b: Int64)
    ensures LessThan(a, b) <==> MoreThan(b, a)
    ensures !LessThan(a, a) && !MoreThan(a, a)
  {
  }

  /** Enum: whether some element equals the value; the loop stops at the
    * first match. */
  method Enum<T(==)>(val: T, enums: seq<T>) returns (r: bool)
    ensures r <==> val in enums
  {
    for i := 0 to |enums|
      invariant val !in enums[..i]
    {
      if val == enums[i] {
        return true;
      }
      assert enums[..i + 1] == enums[..i] + [enums[i]];
    }
    assert enums[..|enums|] == enums;
    return false;
  }

  /** Compose: whether every validator accepts the target; it stops at the
    * first that does not, and holds for no validators. */
  method ComposeValidators<T>(target: T, validators: seq<T -> bool>) returns (r: bool)
    ensures r <==> forall i :: 0 <= i < |validators| ==> validators[i](target)
    ensures validators == [] ==> r
  {
    for i := 0 to |validators|
      invariant forall k :: 0 <= k < i ==> validators[k](target)
    {
      if !validators[i](target) {
        return false;
      }
    }
    return true;
  }

  /** The validator test: 12 is not zero and not negative. */
  method TwelveValid() returns (r: bool)
    ensures r
  {
    r := ComposeValidators(12 as Int64, [(v: Int64) => IsNotZero(v), (v: Int64) => IsNonNegative(v)]);
  }
}
