/** Option and Result values used for the handlers' error paths. */
module Wrappers {

  datatype Option<+T> = None | Some(value: T)

  /** A handler outcome: a value, or one of the machine-readable error codes. */
  datatype Result<+T, +E> = Ok(value: T) | Err(error: E)
}
