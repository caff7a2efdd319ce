/** Go code in this repository reports programmer errors by panicking. The model
  * turns every panic into a value, so that callers can be proved not to reach
  * it or the panic itself can be stated as the result. */
module Outcomes {
  datatype Outcome<T> = Done(value: T) | Panic(message: string)
  {
    predicate IsDone() { Done? }
  }

  datatype Option<T> = None | Some(value: T)
}
