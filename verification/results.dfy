/** Failure-carrying values used in place of Python's exceptions and `None`. */
module Results {

  datatype Option<+T> = None | Some(value: T)

  /** The outcome of a step that can raise: `Err` carries what was raised. */
  datatype Result<+T, +E> = Ok(value: T) | Err(error: E)

}
