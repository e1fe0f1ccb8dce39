/** Optional values and error returns shared by the pipelines. */
module Wrappers {

  /** A value that may be missing (a NaN cell, an absent file). */
  datatype Option<+T> = None | Some(value: T)

  /** The outcome of a step that can raise instead of returning. */
  datatype Result<+T, +E> = Success(value: T) | Failure(error: E)
}
