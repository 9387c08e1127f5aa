/** Failure-carrying results shared by the other modules. */
module Wrappers {

  /** A value that may be absent (JavaScript's `undefined`). */
  datatype Option<+T> = None | Some(value: T)

  /** The outcome of an operation that may throw: the value, or the error it throws. */
  datatype Result<+T, +E> = Ok(value: T) | Err(error: E)
}
