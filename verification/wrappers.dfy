/** Optional values and the success-or-thrown-error outcome of a JavaScript call. */
module Wrappers {

  /** A JavaScript value that may be `undefined`/`null` (None) or present (Some). */
  datatype Option<+T> = None | Some(value: T)

  /** A call that either returns a value or throws an `Error` carrying a message. */
  datatype Result<+R, +E> = Success(value: R) | Failure(error: E)
}
