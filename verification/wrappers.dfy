/** Failure-carrying wrapper types used across the model. */
module Wrappers {

  /** An optional value: Go's `(val, ok)` lookups and "error or nil" returns. */
  datatype Option<+T> = None | Some(value: T)

  /** A value or the error that prevented computing it. */
  datatype Result<+R, +E> = Success(value: R) | Failure(error: E)

  /** The outcome of an operation that returns only an error (Go's `error`, nil on success). */
  datatype Outcome<+E> = Pass | Fail(error: E)
}
