/** Go's `(value, error)` returns, as values. An error is its message text,
    because the source routes errors by comparing `err.Error()` with a string. */
module Wrappers {

  /** A nullable value: Go's nil pointer or nil error is None. */
  datatype Option<+T> = None | Some(value: T)

  /** A value or the message of the error returned in its place. */
  datatype Result<+T> = Ok(value: T) | Err(msg: string)
}
