/** Optional values and results with an error, for the source's nullable
    arguments and the exceptions it throws. */
module Wrappers {

  datatype Option<+T> = None | Some(value: T)

  datatype Result<+R, +E> = Success(value: R) | Failure(error: E)
}
