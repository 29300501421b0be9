/** Failure-carrying wrappers shared by the whole model. */
module Wrappers {

  /** An optional value: the model's `Option<T>`. */
  datatype Option<+T> = None | Some(value: T)

  /** A value or an error: the model's `Result<T, E>`. */
  datatype Result<+T, +E> = Ok(value: T) | Err(error: E)
}
