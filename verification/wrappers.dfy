/** Failure-aware result types used by the auction model.
    - Option<T> stands for a Python value that may be `None`.
    - Result<T, E> stands for a call that either returns a value or raises. */
module Wrappers {

  datatype Option<+T> = None | Some(value: T)

  datatype Result<+T, +E> = Success(value: T) | Failure(error: E)
}
