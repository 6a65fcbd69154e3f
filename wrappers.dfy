/** Optional values and error returns shared by the whole model. */
module Wrappers {

  /** A value that may be absent: `undefined`, `null` or `NaN` on the JavaScript side. */
  datatype Option<+T> = None | Some(value: T)

  /** The outcome of a controller step: a value, or the error it passes to `next`. */
  datatype Result<+T, +E> = Success(value: T) | Failure(error: E)
}
