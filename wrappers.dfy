/** Option and Result values used across the model. */
module Wrappers {

  /** An absent or present value; stands for a possibly-null reference. */
  datatype Option<+T> = None | Some(value: T)

  /** The outcome of an operation that can fail with an error value. */
  datatype Result<+T, +E> = Ok(value: T) | Err(error: E)
}
