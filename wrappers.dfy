/** Failure-compatible wrappers shared by every module of the model. */
module Wrappers {

  datatype Option<+T> = None | Some(value: T)

  /** A Go `(value, error)` pair: either a value or the error text. */
  datatype Result<+T> = Ok(value: T) | Err(msg: string)
}
