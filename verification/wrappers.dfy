/** Failure-carrying values shared by the to-do model. */
module Wrappers {

  /** A value that may be absent (JavaScript `undefined`, an optional callback). */
  datatype Option<+T> = None | Some(value: T)

  /** The outcome of a call that may throw: its value, or the error it raised. */
  datatype Result<+T, +E> = Success(value: T) | Failure(error: E)
}
