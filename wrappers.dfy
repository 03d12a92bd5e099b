/** Option and Result, the two failure-carrying datatypes the pipeline model uses. */
module Wrappers {

  datatype Option<+T> = None | Some(value: T)

  /** An operation either yields a value or fails with an error, where the
      Python code returns normally or raises. */
  datatype Result<+T, +E> = Ok(value: T) | Err(error: E)
}
