/** Failure-carrying results shared by every module of the model: Rust's
    `Option` and anyhow's `Result`. */
module Wrappers {

  datatype Option<+T> = None | Some(value: T)

  datatype Result<+T, +E> = Ok(value: T) | Err(error: E)
}
