/** Failure-carrying result types shared by the other modules. */
module Results {

  /** A value that may be missing. */
  datatype Option<+T> = None | Some(value: T)

  /** The outcome of an operation that either yields a value or reports an error,
      the shape of Go's `(value, err)` return pairs. */
  datatype Result<+T, +E> = Success(value: T) | Failure(error: E)
}
