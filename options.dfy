/** options.go: an optional value kept as the value and a `none` flag.
  * `Some` asks reflection whether the value is its type's zero value;
  * the model takes that zero value as the argument `zero` and compares. */
module Options {
  import opened Outcomes

  datatype Options<T> = Options(values: T, none: bool)
  {
    /** IsSome: the flag is clear. */
    predicate IsSome() { !none }

    /** IsNone: the flag is set. */
    predicate IsNone() { none }

    /** Unwrap: panic on None, otherwise the value. */
    function Unwrap(): (r: Outcome<T>)
      ensures IsNone() <==> r == Panic("Unwrap: Option is None")
      ensures IsSome() ==> r == Done(values)
    {
      if none then Panic("Unwrap: Option is None") else Done(values)
    }

    /** Expect: panic with the message on None, otherwise the value. */
    function Expect(msg: string): (r: Outcome<T>)
      ensures IsNone() <==> r == Panic("Expect: " + msg)
      ensures IsSome() ==> r == Done(values)
    {
      if none then Panic("Expect: " + msg) else Done(values)
    }

    /** UnwrapOr: the default on None, otherwise the value. */
    function UnwrapOr(defaultValue: T): (r: T)
      ensures IsNone() ==> r == defaultValue
      ensures IsSome() ==> r == values
    {
      if none then defaultValue else values
    }

    /** IsSomeAnd: false on None, otherwise the predicate of the value. */
    function IsSomeAnd(fn: T -> bool): (r: bool)
      ensures r <==> IsSome() && fn(values)
    {
      if none then false else fn(values)
    }

    /** Inspect: the receiver unchanged. */
    function Inspect(): (r: Options<T>)
      ensures r == this
    {
      this
    }
  }

  /** Some: None exactly when the value is its type's zero value. */
  function Some<T(==)>(value: T, zero: T): (r: Options<T>)
    ensures r.IsNone() <==> value == zero
    ensures r.values == value
  {
    Options(value, value == zero)
  }

  /** None: the flag set and the zero value stored. */
  function None<T>(zero: T): (r: Options<T>)
    ensures r.IsNone() && !r.IsSome()
  {
    Options(zero, true)
  }

  /** IsSome and IsNone are each other's negation. */
  lemma SomeIsNotNone<T>(o: Options<T>)
    ensures o.IsSome() <==> !o.IsNone()
  {
  }

  /** Option: the address of a parameter is never nil, so this is always
    * Some. */
  function Option<T(==)>(value: T, zero: T): (r: Options<T>)
    ensures r == Some(value, zero)
  {
    Some(value, zero)
  }

  /** The tests: a nil pointer gives None, so UnwrapOr gives the default 12;
    * a non-zero value unwraps to itself. */
  lemma OptionExamples()
    ensures Some(0, 0).IsNone() && Some(0, 0).UnwrapOr(12) == 12
    ensures Some(5, 0).Unwrap() == Done(5)
    ensures None(0).Expect("empty") == Panic("Expect: empty")
  {
  }
}
