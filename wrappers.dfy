/** Optional values and results, standing for C++ nullable pointers and thrown exceptions. */
module Wrappers {

  /** A nullable pointer: `None` is `nullptr`. */
  datatype Option<+T> = None | Some(value: T)

  /** The outcome of an operation that may throw: `Failure` carries what was thrown. */
  datatype Result<+T, +E> = Success(value: T) | Failure(error: E)
}
