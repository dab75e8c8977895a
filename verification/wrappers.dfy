/** Failure-carrying results shared by the rest of the model. */
module Wrappers {

  /** A value that may be absent (a file that failed to open, a name that did not parse). */
  datatype Option<+T> = None | Some(value: T)

  /** The outcome of an operation that either produces a value or reports an error. */
  datatype Result<+R, +E> = Success(value: R) | Failure(error: E)
}
