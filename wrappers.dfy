/** Failure-carrying result types shared by the model. */
module Wrappers {

  datatype Option<+T> = None | Some(value: T)

  datatype Result<+T, +E> = Success(value: T) | Failure(error: E)

  /** The outcome of a check that returns nothing but may fail (a Go `error` that may be nil). */
  datatype Outcome<+E> = Pass | Fail(error: E)
}
