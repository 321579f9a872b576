/** Optional values and results with an error message, for the places where
    the Python code returns `None` or catches an exception. */
module Wrappers {
  datatype Option<+T> = None | Some(value: T)

  datatype Result<+T> = Success(value: T) | Failure(error: string)
}
