/** Failure-carrying results used by every handler of the model. */
module Wrappers {

  datatype Option<+T> = None | Some(value: T)

  /** A value or the error that the source throws or sends back instead. */
  datatype Result<+T, +E> = Ok(value: T) | Err(error: E)

  /** Success without a value, or an error. */
  datatype Outcome<+E> = Pass | Fail(error: E)
}
