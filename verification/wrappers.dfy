/** Optional values and success/failure results shared by the other modules. */
module Wrappers {

  /** A value that may be absent; stands for JavaScript's `null`. */
  datatype Option<+T> = None | Some(value: T)

  /** The outcome of a step that may throw: its value, or the thrown error. */
  datatype Result<+T, +E> = Success(value: T) | Failure(error: E)
}
