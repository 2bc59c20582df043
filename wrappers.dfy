/** Failure-carrying values standing in for Go's `(value, error)` returns and nil-able fields. */
module Wrappers {

  datatype Option<+T> = None | Some(value: T)

  datatype Result<+T, +E> = Ok(value: T) | Err(error: E)
}
