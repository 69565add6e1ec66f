/** Failure-compatible wrappers used for the error returns of the Go code. */
module Wrappers {

  /** A value that may be missing (a failed hardware read, a segment not found). */
  datatype Option<+T> = None | Some(value: T)

  /** The `(value, error)` pair a Go function returns, as a sum type. */
  datatype Result<+R, +E> = Success(value: R) | Failure(error: E)
}
