/** Failure-carrying values shared by the rest of the model. */
module Wrappers {

  /** A value that may be missing; `None` stands for an operation that raised. */
  datatype Option<+T> = None | Some(value: T)

  /** The outcome of a request: a value, or the reason it was refused. */
  datatype Result<+R, +E> = Ok(value: R) | Err(error: E)
}
