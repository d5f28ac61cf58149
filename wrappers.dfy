/** Option and Result, the two failure-carrying types the model uses for
    Python's missing keys (None) and raised exceptions. */
module Wrappers {

  datatype Option<+T> = None | Some(value: T)

  /** A computation that returns a value or raises an error. */
  datatype Result<+T, +E> = Ok(value: T) | Err(error: E)
}
