/** Failure-carrying results shared by every module of the model. */
module Wrappers {

  datatype Option<+T> = None | Some(value: T)

  datatype Result<+T, +E> = Ok(value: T) | Err(error: E)

  /** The shape of a check that either passes or names why it failed. */
  datatype Outcome<+E> = Pass | Fail(error: E)
}
