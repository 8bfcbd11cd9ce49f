/** Small option and result types shared by the modules of the model. */
module Wrappers {

  /** A value that may be absent (Python's `None` for optional fields). */
  datatype Option<+T> = None | Some(value: T)

  /** The outcome of an operation that either produces a value or raises an error. */
  datatype Result<+T, +E> = Ok(value: T) | Err(error: E)
}
