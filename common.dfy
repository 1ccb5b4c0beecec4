/** Small value types shared by every stage of the pipeline. */
module Common {

  /** A value that may be missing (a pandas NaN / NaT cell). */
  datatype Option<T> = None | Some(value: T)

  /** The outcome of an operation that may raise. */
  datatype Result<T, E> = Success(value: T) | Failure(error: E)
}
