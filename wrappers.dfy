/** Outcomes of operations that can fail: an absent value, or an error that
    the source raises as a Python exception. */
module Wrappers {
  datatype Option<T> = None | Some(value: T)

  datatype Result<T> = Success(value: T) | Failure(error: string)
}
