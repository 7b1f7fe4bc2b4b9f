/** Option and Result values for operations that can fail. */
module Wrappers {

  datatype Option<+T> = None | Some(value: T)

  /** A Go `(value, error)` pair or a Python exception: either a value or an error message. */
  datatype Result<+T> = Ok(value: T) | Err(error: string)
}
