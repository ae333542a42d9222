/** Option and Result values: Go's nil pointers and (value, error) pairs. */
module Outcomes {

  /** A value that may be absent: Go's nil pointer results. */
  datatype Option<+T> = None | Some(value: T)

  /** A value or an error: Go's `(value, error)` return pairs. */
  datatype Result<+T, +E> = Ok(value: T) | Err(error: E)
}
