/** Option and Result, the failure-carrying wrappers used by the rest of the model. */
module Wrappers {

  datatype Option<+T> = None | Some(value: T)

  /** The outcome of an operation that the original reports by throwing. */
  datatype Result<+T, +E> = Ok(value: T) | Err(error: E)
}
