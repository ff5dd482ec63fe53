/** Failure-carrying values shared by the modules of this model. */
module Wrappers {

  datatype Option<+T> = None | Some(value: T)

  /** The outcome of an operation that raises a Python exception on failure. */
  datatype Result<+T, +E> = Ok(value: T) | Err(error: E)
}
