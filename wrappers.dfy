/** Failure-compatible wrappers shared by every module of the model. */
module Wrappers {

  /** A value that may be absent: JavaScript's `null`/`undefined`/`-1` results. */
  datatype Option<+T> = None | Some(value: T)

  /** The outcome of an operation that can throw. */
  datatype Result<+T, +E> = Ok(value: T) | Err(error: E)
}
