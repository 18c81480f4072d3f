/** Optional values and outcomes of the patch steps. */
module Wrappers {

  /** A value that may be missing: a file that may not exist, a match that may not be found. */
  datatype Option<T> = None | Some(value: T)

  /** A step that either produces a value or stops with an error, like `raise SystemExit`. */
  datatype Result<T, E> = Ok(value: T) | Err(error: E)
}
