/** Success/failure values standing for the exceptions the poker library throws. */
module Wrappers {

  /** The result of an operation that either produces a value or throws. */
  datatype Result<+T, +E> = Success(value: T) | Failure(error: E)

  /** A value that may be missing, such as the outcome of a `switch` with no matching arm. */
  datatype Option<+T> = None | Some(value: T)

  /** The result of an operation that produces nothing or throws. */
  datatype Outcome<+E> = Pass | Fail(error: E)
}
