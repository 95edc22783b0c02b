/** Optional values and results with an error, for the scripts' `None` returns and raised errors. */
module Outcomes {

  datatype Option<T> = None | Some(value: T)

  datatype Result<T, E> = Success(value: T) | Failure(error: E)
}
