// Failure-compatible result types used across the model.
module Wrappers {

  datatype Option<+T> = None | Some(value: T)

  /** Either a value or the error an operation reported instead. */
  datatype Result<+T, +E> = Ok(value: T) | Err(error: E)
}
