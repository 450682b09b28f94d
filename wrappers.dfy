/** Optional values and error-carrying results, used in place of NaN and exceptions. */
module Wrappers {

  /** A value that may be missing; `None` stands for pandas' NaN. */
  datatype Option<+T> = None | Some(value: T)

  /** Either a value or the error that stopped the computation. */
  datatype Result<+T, +E> = Success(value: T) | Failure(error: E)
}
