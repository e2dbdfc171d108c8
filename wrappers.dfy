/** Optional values and results with an error, used throughout the model. */
module Wrappers {

  /** A value that may be absent: a missing JSON key, an unset environment variable. */
  datatype Option<+T> = None | Some(value: T) {

    /** The value, or `default` when absent (Python's `dict.get(key, default)`). */
    function GetOr(default: T): T {
      match this
      case Some(v) => v
      case None => default
    }
  }

  /** The outcome of an operation that may raise an error carrying a message. */
  datatype Result<+T, +E> = Ok(value: T) | Err(error: E)
}
