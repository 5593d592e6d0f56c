/** Failure-compatible wrappers used throughout the model: `Option` for Kotlin's
    nullable values and `Result` for a constructor that may throw. */
module Wrappers {

  /** A Kotlin `T?`: either absent or present. */
  datatype Option<+T> = None | Some(value: T) {

    /** The value, or `default` when absent (Kotlin's `?:`). */
    function GetOr(default: T): T {
      match this
      case Some(v) => v
      case None => default
    }
  }

  /** The outcome of an operation that either yields a value or raises an error. */
  datatype Result<+R, +E> = Success(value: R) | Failure(error: E)
}
