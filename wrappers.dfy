/** Failure-carrying results shared by every module of the model. */
module Wrappers {

  /** A value that may be absent (Python's `None`). */
  datatype Option<T> = None | Some(value: T)

  /** The outcome of an operation that may raise: `Err` stands for the exception. */
  datatype Result<T, E> = Ok(value: T) | Err(error: E)
}
