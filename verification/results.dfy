/**
 * Failure-carrying wrappers shared by the exam portal model: an optional
 * value (a nullable column) and a value-or-error (an operation that can raise).
 */
module Results {

  /** A value that may be absent, such as a nullable timestamp column. */
  datatype Option<+T> = None | Some(value: T)

  /** Either the value an operation computed or the error it raised instead. */
  datatype Result<+R, +E> = Success(value: R) | Failure(error: E)
}
