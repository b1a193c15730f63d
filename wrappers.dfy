/** Failure-carrying results, used where the source raises an exception. */
module Wrappers {

  datatype Option<+T> = None | Some(value: T)

  /** A value, or the error that the source would have raised instead. */
  datatype Result<+R, +E> = Success(value: R) | Failure(error: E)

  /** The outcome of an operation that returns nothing but may raise. */
  datatype Outcome<+E> = Pass | Fail(error: E)
}
