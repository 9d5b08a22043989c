/** Option and Result values used for absent rows and rejected requests. */
module Wrappers {

  datatype Option<+T> = None | Some(value: T)

  /** A request either succeeds with a value or fails with an error. */
  datatype Result<+T, +E> = Success(value: T) | Failure(error: E)
}
