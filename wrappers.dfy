/** Option and Result, for the absent values and the exceptions of the controllers. */
module Wrappers {

  datatype Option<+T> = None | Some(value: T)

  /** A value, or the Python exception that the computation raised instead. */
  datatype Result<+T, +E> = Ok(value: T) | Err(error: E)
}
