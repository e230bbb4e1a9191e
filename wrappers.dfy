/** Failure-carrying result types for the deck's operations. */
module Wrappers {

  /** A value that may be absent: the deck's decode returns no card for an id outside 1..52. */
  datatype Option<+T> = None | Some(value: T)

  /** The outcome of an operation that returns a value or raises an error. */
  datatype Result<+R, +E> = Success(value: R) | Failure(error: E)

  /** The outcome of an operation that returns nothing or raises an error. */
  datatype Outcome<+E> = Pass | Fail(error: E)
}
