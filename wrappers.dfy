/** Failure-carrying values shared by the modules of the model. */
module Wrappers {

  /** `Option` of the Rust standard library. */
  datatype Option<+T> = None | Some(value: T)

  /** `Result` of the Rust standard library. */
  datatype Result<+T, +E> = Ok(value: T) | Err(error: E)
}
