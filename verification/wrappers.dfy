/** Optional values and results, used where the scripts return None or crash on malformed input. */
module Wrappers {

  /** Python's `None` versus a present value. */
  datatype Option<+T> = None | Some(value: T)

  /** A computation that either produces a value or stops with an error value. */
  datatype Result<+R, +E> = Success(value: R) | Failure(error: E)
}
