/** Failure-carrying values used across the model: an optional value, a
    value-or-error, and a pass-or-error outcome (Go's `error` return). */
module Wrappers {

  datatype Option<+T> = None | Some(value: T)

  datatype Result<+T, +E> = Ok(value: T) | Err(error: E)

  datatype Outcome<+E> = Pass | Fail(error: E)
}
