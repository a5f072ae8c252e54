/** Option and Result wrappers shared by every module of the model. */
module Wrappers {

  /** A value that may be absent: Python's `Optional[T]` (`None` or a value). */
  datatype Option<+T> = None | Some(value: T)

  /** The outcome of an operation that either returns a value or raises. */
  datatype Result<+T, +E> = Ok(value: T) | Err(error: E)
}
