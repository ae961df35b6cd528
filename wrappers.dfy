/** Optional values and typed results, standing in for `null` results of the
    repository and for the exceptions the service throws. */
module Wrappers {

  datatype Option<+T> = None | Some(value: T)

  datatype Result<+T, +E> = Ok(value: T) | Err(error: E)
}
