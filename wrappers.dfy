/** Optional values and outcomes, shared by the other modules. */
module Wrappers {

  /** A value that may be absent (a JavaScript `null` or `undefined`). */
  datatype Option<+T> = None | Some(value: T)

  /** The outcome of an operation that may reject its input. */
  datatype Result<+R, +E> = Success(value: R) | Failure(error: E)
}
