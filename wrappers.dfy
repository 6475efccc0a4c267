/** Option and Result, the failure-carrying values used throughout the model. */
module Wrappers {

  /** A value that may be missing: Java's null, or a parse that threw and was caught. */
  datatype Option<+T> = None | Some(value: T)

  /** A value or the exception that escaped instead of it. */
  datatype Result<+R, +E> = Ok(value: R) | Err(error: E)
}
