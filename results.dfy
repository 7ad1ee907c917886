/** Failure-carrying values shared by the modules of this model. */
module Results {

  /** A value that may be absent: a map lookup that finds nothing. */
  datatype Option<+T> = None | Some(value: T)

  /** A computation that either produces a value or fails with an error. */
  datatype Result<+T, +E> = Ok(value: T) | Err(error: E)
}
