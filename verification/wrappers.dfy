/** Failure-carrying values used throughout the model in place of the
    exceptions the program raises. */
module Wrappers {

  /** A value that may be missing: a foreign parser or a network call that failed. */
  datatype Option<+T> = None | Some(value: T)

  /** Either a computed value or the error that stopped the computation. */
  datatype Result<+T, +E> = Ok(value: T) | Err(error: E)
}
