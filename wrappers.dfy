/** Optional values and success-or-error results, used for Python's `None`
    and for exceptions that the source turns into values. */
module Wrappers {

  datatype Option<T> = None | Some(value: T)

  datatype Result<T, E> = Success(value: T) | Failure(error: E)
}
