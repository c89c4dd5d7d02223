/** Option and Result values shared by the model's modules. */
module Wrappers {

  datatype Option<+T> = None | Some(value: T)

  /** The outcome of an operation that can fail the way a database call does. */
  datatype Result<+T, +E> = Ok(value: T) | Err(error: E)
}
