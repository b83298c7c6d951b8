/** Optional values and error-carrying results, used for Python's `None` and for the
    exceptions the modelled code can raise. */
module Wrappers {

  /** `None` also stands for Python's `None`, and for `float("-inf")` where a score has not been set. */
  datatype Option<+T> = None | Some(value: T)

  /** The outcome of an operation that may raise instead of returning. */
  datatype Result<+R, +E> = Success(value: R) | Failure(error: E)
}
