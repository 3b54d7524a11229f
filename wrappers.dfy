/** Optional values and results with an error, used wherever the source
    returns `undefined`, reads a missing key or throws and catches. */
module Wrappers {
  datatype Option<+T> = None | Some(value: T)

  datatype Result<+T, +E> = Success(value: T) | Failure(error: E)
}
