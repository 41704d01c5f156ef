/** Failure-carrying values used in place of Go's `(value, error)` pairs. */
module Wrappers {

  datatype Option<T> = None | Some(value: T)

  /** A value, or the message of an `error` that is not nil. */
  datatype Result<T> = Ok(value: T) | Err(error: string)

  /** A bare Go `error`: nil (`Pass`) or a message. */
  datatype Outcome = Pass | Fail(error: string)
}
