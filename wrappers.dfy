/** Failure-compatible wrappers shared by the other modules. */
module Wrappers {

  /** A value that may be missing. `None` stands for a C null pointer. */
  datatype Option<+T> = None | Some(value: T)

  /** The outcome of an operation that may fail with an error of type E. */
  datatype Result<+T, +E> = Ok(value: T) | Err(error: E)
}
