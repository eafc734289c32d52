/** Failure-carrying return values, standing in for Go's `(value, error)` and `(value, ok)` pairs. */
module Wrappers {

  datatype Option<+T> = None | Some(value: T)

  datatype Result<+T, +E> = Ok(value: T) | Err(error: E)
}
