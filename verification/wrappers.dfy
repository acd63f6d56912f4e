/** Wrappers used throughout the model: Go's `(T, error)`
    returns become `Result`, a bare `error` return becomes `Outcome`. */
module Wrappers {

  /** A value that may be absent. */
  datatype Option<+T> = None | Some(value: T)

  /** Either a value or an error. */
  datatype Result<+R, +E> = Success(value: R) | Failure(error: E)

  /** The result of an operation that returns only an error (nil on success). */
  datatype Outcome<+E> = Pass | Fail(error: E)
}
