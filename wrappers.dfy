/** Optional values and success-or-error outcomes. */
module Wrappers {

  /** A value that may be absent, as JavaScript's `undefined`. */
  datatype Option<+T> = None | Some(value: T)

  /** The outcome of a call that either returns a value or throws. */
  datatype Result<+R, +E> = Success(value: R) | Failure(error: E)
}
