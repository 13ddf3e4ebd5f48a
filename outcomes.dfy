/** Optional values and results with an error, used wherever the vault query
    code can find a null or throw. */
module Outcomes {

  datatype Option<+T> = None | Some(value: T)

  datatype Result<+T, +E> = Success(value: T) | Failure(error: E)
}
