/** Small value wrappers shared by the pipeline modules. */
module Options {

  /** A value that may be missing: Python's `None` or a pandas NaN cell. */
  datatype Option<+T> = None | Some(value: T)

  /** The outcome of an operation that can raise. */
  datatype Result<+T, +E> = Success(value: T) | Failure(error: E)
}
