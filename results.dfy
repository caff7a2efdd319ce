/** result.go: a value paired with an error. A Go `error` is either nil or
  * carries a message. `zero` stands for T's zero value, which Go puts in
  * the value field of a result built from an error. */
module Results {
  import opened Outcomes

  datatype GoError = Nil | Failure(message: string)

  datatype Result<T> = Result(value: T, err: GoError)
  {
    /** IsOk: the error is nil. */
    predicate IsOk() { err == Nil }

    /** IsErr: the error is not nil. */
    predicate IsErr() { err != Nil }

    /** Value: the stored value, whatever the error. */
    function Value(): (r: T)
      ensures r == value
    {
      value
    }

    /** Err: the stored error. */
    function Err(): (e: GoError)
      ensures e == err
    {
      err
    }

    /** Unwrap: panic with the error, or give the value. */
    function Unwrap(): (r: Outcome<T>)
      ensures r.Panic? <==> IsErr()
      ensures IsErr() ==> r.message == err.message
      ensures IsOk() ==> r == Done(value)
    {
      if IsErr() then Panic(err.message) else Done(value)
    }

    /** UnwrapOr: the default exactly when there is an error. */
    function UnwrapOr(defaultValue: T): (r: T)
      ensures IsErr() ==> r == defaultValue
      ensures IsOk() ==> r == value
    {
      if IsErr() then defaultValue else value
    }
  }

  /** Ok: a value without error. */
  function Ok<T>(value: T): (r: Result<T>)
    ensures r.IsOk() && !r.IsErr() && r.Value() == value
  {
    Result(value, Nil)
  }

  /** Err: an error and T's zero value. A nil error makes an ok result. */
  function Err<T>(err: GoError, zero: T): (r: Result<T>)
    ensures r.Err() == err && r.Value() == zero
    ensures r.IsErr() <==> err != Nil
  {
    Result(zero, err)
  }

  /** NewResult: the same as Ok. */
  function NewResult<T>(value: T): (r: Result<T>)
    ensures r == Ok(value)
    ensures r.IsOk() && r.Value() == value
  {
    Result(value, Nil)
  }

  /** IsOk and IsErr are each other's negation on every result. */
  lemma OkIsNotErr<T>(r: Result<T>)
    ensures r.IsOk() <==> !r.IsErr()
  {
  }

  /** What a panic carries, as TryCatch's recover sees it. */
  datatype PanicValue = PanicError(err: string) | PanicString(text: string) | PanicOther(rendered: string)

  /** How the callback ends: it returns an error (possibly nil) or panics. */
  datatype CallbackEnd = Returned(err: GoError) | Panicked(value: PanicValue)

  /** The error recover turns a panic value into: an error as it is, a string
    * through errors.New, anything else through fmt.Errorf. */
  function RecoveredError(p: PanicValue): (e: GoError)
    ensures e.Failure?
    ensures p.PanicError? ==> e.message == p.err
    ensures p.PanicString? ==> e.message == p.text
    ensures p.PanicOther? ==> e.message == "unknown panic: " + p.rendered
  {
    match p
    case PanicError(m) => Failure(m)
    case PanicString(s) => Failure(s)
    case PanicOther(v) => Failure("unknown panic: " + v)
  }

  /** TryCatch: an error result is returned as it is; otherwise the callback
    * runs on the value, and its error or its panic becomes an error result
    * (holding T's zero value), while a nil error keeps the value. */
  function TryCatch<T>(r: Result<T>, callback: T -> CallbackEnd, zero: T): (t: Result<T>)
    ensures r.IsErr() ==> t == r
    ensures r.IsOk() && callback(r.value) == Returned(Nil) ==> t == Ok(r.value)
    ensures r.IsOk() && callback(r.value).Returned? && callback(r.value).err != Nil ==>
      t.IsErr() && t.Err() == callback(r.value).err && t.Value() == zero
    ensures r.IsOk() && callback(r.value).Panicked? ==>
      t.IsErr() && t.Err() == RecoveredError(callback(r.value).value) && t.Value() == zero
  {
    if r.err != Nil then r
    else
      match callback(r.value)
      case Returned(e) => if e != Nil then Err(e, zero) else Ok(r.value)
      case Panicked(p) => Err(RecoveredError(p), zero)
  }

  /** The tests: a callback that fails turns 12 into an error result, one
    * that panics with a string turns it into that string's error, one that
    * succeeds keeps 12. */
  lemma TryCatchExamples()
    ensures TryCatch(Ok(12), (v: int) => Returned(Failure("bad")), 0).Err() == Failure("bad")
    ensures TryCatch(Ok(12), (v: int) => Panicked(PanicString("boom")), 0).Err() == Failure("boom")
    ensures TryCatch(Ok(12), (v: int) => Returned(Nil), 0).Unwrap() == Done(12)
    ensures Err(Failure("x"), 0).UnwrapOr(12) == 12
  {
  }
}
