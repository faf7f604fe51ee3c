/** Failure-carrying values shared by every module of the model. */
module Wrappers {

  /** A value that may be missing: Python's `None` or a failed lookup. */
  datatype Option<+T> = None | Some(value: T)

  /** The outcome of an operation that can raise. */
  datatype Result<+T, +E> = Ok(value: T) | Err(error: E)
}
