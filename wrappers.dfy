/** Optional values and error-or-value results, used for JSON nulls and for
    the HTTP errors the recommender raises. */
module Wrappers {

  datatype Option<+T> = None | Some(value: T)

  datatype Result<+R, +E> = Success(value: R) | Failure(error: E)
}
