/** Failure-compatible wrappers shared by the other modules. */
module Wrappers {

  /** An optional value: a parse that may fail. */
  datatype Option<+T> = None | Some(value: T)

  /** A value or an error, in place of Go's `(value, error)` pairs. */
  datatype Result<+R, +E> = Success(value: R) | Failure(error: E)
}
