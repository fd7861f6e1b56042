/** Failure-carrying results for the operations that throw in the source. */
module Wrappers {

  datatype Option<+T> = None | Some(value: T)

  /** Either the value an operation returns or the error it throws. */
  datatype Result<+R, +E> = Success(value: R) | Failure(error: E)
}
