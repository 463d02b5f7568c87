/** Failure-carrying result types shared by the three components. */
module Wrappers {

  datatype Option<+T> = None | Some(value: T)

  /** The outcome of an operation that returns nothing on success. */
  datatype Outcome<+E> = Pass | Fail(error: E)

  /** The outcome of an operation that returns a value on success. */
  datatype Result<+R, +E> = Success(value: R) | Failure(error: E)
}
