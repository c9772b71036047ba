/** Failure-carrying result types used across the model. */
module Wrappers {

  /** A value that may be absent (JavaScript `undefined` / `null`). */
  datatype Option<+T> = None | Some(value: T)

  /** The value of a call that either returns `value` or throws `error`. */
  datatype Result<+T, +E> = Ok(value: T) | Err(error: E)

  /** The value of a check that either returns normally or throws `error`. */
  datatype Outcome<+E> = Pass | Fail(error: E)
}
