/** Failure-carrying datatypes used in place of the Python exceptions. */
module Results {

  /** A value that may be absent, as Python's `None` handle. */
  datatype Option<+T> = None | Some(value: T)

  /** The outcome of an operation that either returns a value or raises. */
  datatype Result<+T, +E> = Success(value: T) | Failure(error: E)
}
