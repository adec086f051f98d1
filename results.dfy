/** Failure-carrying return values shared by the section database modules. */
module Results {

  /** A value that may be absent (a regular-expression search that found nothing). */
  datatype Option<T> = None | Some(value: T)

  /** The outcome of an operation that either returns a value or raises an error. */
  datatype Result<T, E> = Ok(value: T) | Err(error: E)
}
