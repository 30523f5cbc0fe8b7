/** Failure-carrying wrappers shared by every module of the model. */
module Base {

  datatype Option<+T> = None | Some(value: T)

  /** The shape of Rust's `Result<T, E>`. */
  datatype Result<+T, +E> = Ok(value: T) | Err(error: E)
}
