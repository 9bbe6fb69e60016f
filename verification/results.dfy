/** Failure-carrying values shared by every module of the model. */
module Results {

  /** A value that may be absent: Kotlin's nullable types and `find`-style lookups. */
  datatype Option<+T> = None | Some(value: T)

  /** The outcome of an operation that either produces a value or raises an exception. */
  datatype Result<+T, +E> = Success(value: T) | Failure(error: E)
}
