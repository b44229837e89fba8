/** Failure-compatible wrappers shared by the store model. */
module Wrappers {

  /** An optional value: a row that a query may or may not return. */
  datatype Option<+T> = None | Some(value: T)

  /** The outcome of an operation that either succeeds with a value or raises an error. */
  datatype Result<+T, +E> = Success(value: T) | Failure(error: E)
}
