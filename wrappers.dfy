/** Option and Result datatypes used across the model. */
module Wrappers {

  datatype Option<+T> = None | Some(value: T)

  /** The outcome of one derive invocation: the emitted item, or a single diagnostic. */
  datatype Result<+T, +E> = Ok(value: T) | Err(error: E)
}
