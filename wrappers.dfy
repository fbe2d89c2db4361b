/** Option and Result, the failure-carrying values used throughout the model. */
module Wrappers {

  datatype Option<+T> = None | Some(value: T)

  /** An operation that either produces a value or fails with an error (a thrown exception in the source). */
  datatype Result<+R, +E> = Success(value: R) | Failure(error: E)
}
