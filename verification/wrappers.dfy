/** Failure-carrying values used across the model: `Option` stands for a
    Python value that may be `None`, `Result` for a call that may raise. */
module Wrappers {

  datatype Option<T> = None | Some(value: T)

  datatype Result<T, E> = Ok(value: T) | Err(error: E)
}
