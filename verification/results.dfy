/** Failure-carrying values: the model's stand-ins for Rust's `Option` and `anyhow::Result`. */
module Results {

  /** A value that may be absent. */
  datatype Option<+T> = None | Some(value: T)

  /** Either a value or an error, as returned by every fallible operation of the library. */
  datatype Result<+T, +E> = Success(value: T) | Failure(error: E)
}
