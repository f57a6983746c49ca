/** The two outcome types the model shares: a value that may be missing, and
    a value or the error that prevented it. */
module Wrappers {
  datatype Option<T> = None | Some(value: T)

  datatype Result<T, E> = Ok(value: T) | Err(error: E)
}
