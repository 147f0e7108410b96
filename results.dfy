/** Optional values and results with an error, used wherever the source
    reads a value that may be absent or reaches a point where it would throw. */
module Results {

  /** A value that may be absent: JavaScript's `null` / `undefined`. */
  datatype Option<+T> = None | Some(value: T)

  /** The outcome of a parse: a value, or the error at which the source would throw. */
  datatype Result<+T, +E> = Ok(value: T) | Err(error: E)
}
