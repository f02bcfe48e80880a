/** Optional values and success-or-failure results, used for the source's
    `null`/absent values and for its rejected promises and error responses. */
module Wrappers {

  datatype Option<+T> = None | Some(value: T)

  datatype Result<+T, +E> = Success(value: T) | Failure(error: E)
}
