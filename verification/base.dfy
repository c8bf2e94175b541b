/** Failure-carrying wrappers shared by both parts of the model. */
module Base {

  /** A value that may be absent: PHP's `null` or an unset array slot. */
  datatype Option<+T> = None | Some(value: T)

  /** The outcome of a call that either returns a value or throws. */
  datatype Result<+T, +E> = Success(value: T) | Failure(error: E)
}
