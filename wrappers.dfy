/** Failure-carrying results used for the error paths of the playlist pass. */
module Wrappers {

  /** A value that may be absent, such as a regular-expression capture that did not match. */
  datatype Option<+T> = None | Some(value: T)

  /** Either a value or the error that replaced it, in the manner of Go's `(T, error)` pair. */
  datatype Result<+T, +E> = Success(value: T) | Failure(error: E)
}
