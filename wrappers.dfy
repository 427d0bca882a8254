/** Option and Result, the two failure-carrying values the model needs. */
module Wrappers {

  datatype Option<+T> = None | Some(value: T)

  /** The value of a step that either completes with a value or fails with an error kind. */
  datatype Result<+T, +E> = Ok(value: T) | Err(error: E)
}
