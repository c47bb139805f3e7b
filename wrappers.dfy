/** Option and Result, for the values and the raised exceptions of the model. */
module Wrappers {

  datatype Option<+T> = None | Some(value: T)

  /** What a Python call can do: return a value, or raise an exception. */
  datatype Result<+T, +E> = Ok(value: T) | Err(error: E)
}
