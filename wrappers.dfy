/** Failure-carrying results, as the Rust `Option` and `Result` types the binding returns. */
module Wrappers {

  datatype Option<+T> = None | Some(value: T)

  datatype Result<+T, +E> = Ok(value: T) | Err(error: E)
}
