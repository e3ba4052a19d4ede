/** Optional values and results, used across the model. */
module Options {

  /** A value that may be absent: an empty grid cell, a missing file. */
  datatype Option<+T> = None | Some(value: T)

  /** The outcome of an operation that the program can abort with an exception. */
  datatype Result<+T, +E> = Success(value: T) | Failure(error: E)
}
