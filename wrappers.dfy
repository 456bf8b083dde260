/** Option and Result, the two wrappers the model uses for absent values and raised exceptions. */
module Wrappers {

  /** A value that may be absent (Python's `None`). */
  datatype Option<+T> = None | Some(value: T)

  /** Either a value or the exception a computation raises. */
  datatype Result<+T, +E> = Ok(value: T) | Err(error: E)
}
