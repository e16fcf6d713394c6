/** Optional values, fallible results and histories, shared by every other module. */
module Wrappers {
  datatype Option<+T> = None | Some(value: T)

  datatype Result<+T, +E> = Success(value: T) | Failure(error: E)

  // What happened so far, latest last.
  datatype History<+T> = Nothing | Then(past: History<T>, last: T)
}
