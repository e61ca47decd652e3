/** The failure-carrying types shared by the rest of the model. */
module Wrappers {

  /** A value that may be missing. */
  datatype Option<+T> = None | Some(value: T)

  /** A value, or the error that took its place. */
  datatype Result<+T, +E> = Ok(value: T) | Err(error: E)
}
