/** Option and Result values for the model's partial operations and error returns. */
module Wrappers {

  datatype Option<+T> = None | Some(value: T)

  /** A value or the exception the source would raise instead. */
  datatype Result<+T, +E> = Ok(value: T) | Err(error: E)
}
