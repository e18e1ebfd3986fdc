/** Optional values and results, standing for JavaScript's `null`/`undefined`
    returns and for thrown errors. */
module Wrappers {

  datatype Option<+T> = None | Some(value: T)

  datatype Result<+R, +E> = Success(value: R) | Failure(error: E)
}
