/** Failure-compatible wrappers shared by every module of the model. */
module Wrappers {

  /** A value that may be absent; stands for a nullable Java reference. */
  datatype Option<+T> = None | Some(value: T)

  /** The result of an operation that either returns a value or throws. */
  datatype Result<+T, +E> = Success(value: T) | Failure(error: E)

  /** The result of an operation that returns nothing or throws. */
  datatype Outcome<+E> = Pass | Fail(error: E)
}
