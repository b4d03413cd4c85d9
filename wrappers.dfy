/** Option and Result, the two failure-carrying wrappers the model uses. */
module Wrappers {

  /** A value that may be absent: JavaScript's `null` / `undefined`. */
  datatype Option<+T> = None | Some(value: T)

  /** The outcome of an operation that may throw: a value or the error it raised. */
  datatype Result<+T, +E> = Success(value: T) | Failure(error: E)
}
