/** Optional values and results, used for the lookups that may find nothing
    and for the storage calls that may raise a client error. */
module Wrappers {

  datatype Option<+T> = None | Some(value: T)

  datatype Result<+R, +E> = Success(value: R) | Failure(error: E)
}
