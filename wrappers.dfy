/** Failure-carrying values used across the model: `Option` for the source's
    `Option<T>` and `Result` for its `anyhow::Result<T>`. */
module Wrappers {

  datatype Option<+T> = None | Some(value: T)

  datatype Result<+T, +E> = Ok(value: T) | Err(error: E)
}
