/** Failure-carrying values used where the program raises or returns None. */
module Results {

  /** A value that may be absent (Python's `None`). */
  datatype Option<+T> = None | Some(value: T)

  /** The outcome of an operation that may raise: its value or the error raised. */
  datatype Result<+T, +E> = Ok(value: T) | Err(error: E)
}
