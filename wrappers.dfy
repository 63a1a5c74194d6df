/** Failure-carrying values for the operations that throw in the StickmanStudios server. */
module Wrappers {

  datatype Option<+T> = None | Some(value: T)

  /** The outcome of an operation that yields a value or throws an error. */
  datatype Result<+T, +E> = Success(value: T) | Failure(error: E)

  /** The outcome of an operation that yields nothing or throws an error. */
  datatype Outcome<+E> = Pass | Fail(error: E)
}
