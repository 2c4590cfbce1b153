/** Failure-carrying values used across the model: a missing value (Python `None`)
    and an operation that either succeeds or raises. */
module Wrappers {

  /** A value that may be absent, as a Python `None` or a missing dictionary key. */
  datatype Option<+T> = None | Some(value: T) {

    /** The wrapped value, or `default` when absent (Python's `dict.get(key, default)`). */
    function GetOr(default: T): T {
      match this
      case Some(v) => v
      case None => default
    }
  }

  /** The outcome of an operation that may raise an exception. */
  datatype Result<+T, +E> = Success(value: T) | Failure(error: E)
}
