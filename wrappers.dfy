/** Optional values and results with an error, used where the planner returns None or gives up with a warning. */
module Wrappers {

  datatype Option<T> = None | Some(value: T)

  datatype Result<T, E> = Success(value: T) | Failure(error: E)
}
