/** Failure-carrying values shared by the whole model. */
module Results {

  /** A value that may be absent, such as an iCalendar property an event does not carry. */
  datatype Option<+T> = None | Some(value: T)

  /** The outcome of an operation that either produces a value or fails with an error. */
  datatype Result<+T, +E> = Success(value: T) | Failure(error: E)
}
