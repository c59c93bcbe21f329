/** Optional values (Kotlin's nullable types) and decode results. */
module Wrappers {

  /** A Kotlin `T?`: either absent (`null`) or a value. */
  datatype Option<+T> = None | Some(value: T) {

    /** Kotlin's elvis operator `x ?: default`. */
    function GetOr(default: T): T {
      match this
      case Some(v) => v
      case None => default
    }
  }

  /** The outcome of an external decoder: a value or the decoder's error message. */
  datatype Result<+T> = Success(value: T) | Failure(error: string)
}
