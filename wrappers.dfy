/** Optional values and results that may carry an error. */
module Wrappers {

  /** A value that may be missing: JavaScript's `undefined` for a lookup that found nothing. */
  datatype Option<+T> = None | Some(value: T)

  /** The outcome of an operation that may fail: a settled value, or the error that rejected it. */
  datatype Result<+T> = Ok(value: T) | Err(error: string)
}
