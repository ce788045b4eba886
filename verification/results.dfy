/** Failure-carrying wrappers shared by the other modules. */
module Results {

  /** A value that may be absent, e.g. the outcome of parsing text. */
  datatype Option<T> = None | Some(value: T)

  /** A value or the error that prevented computing it. */
  datatype Result<T, E> = Success(value: T) | Failure(error: E)
}
