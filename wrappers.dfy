/** Optional values, standing in for Java's `null` / `Optional` and JavaScript's `null`/`NaN` results. */
module Wrappers {
  datatype Option<T> = None | Some(value: T)

  /** Outcome of an operation that may fail with an error of kind `E`. */
  datatype Result<T, E> = Ok(value: T) | Err(error: E)
}
