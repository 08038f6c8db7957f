/** Failure-carrying values shared by the modules of the model. */
module Base {

  /** A value that may be absent (Python's `None`). */
  datatype Option<T> = None | Some(value: T)

  /** The outcome of an operation that may raise: `Err` carries the exception's message. */
  datatype Result<T> = Ok(value: T) | Err(message: string)
}
