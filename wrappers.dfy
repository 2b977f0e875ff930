/** Option and Result datatypes used for the renderer's fallible operations. */
module Wrappers {

  datatype Option<+T> = None | Some(value: T)

  datatype Result<+T, +E> = Ok(value: T) | Err(error: E)

  /** A Result that carries no value on success. */
  datatype Outcome<+E> = Pass | Fail(error: E)
}
