/** Optional values and error results, standing in for Swift optionals and thrown errors. */
module Wrappers {

  /** A Swift optional: `None` is `nil`. */
  datatype Option<+T> = None | Some(value: T) {

    /** The wrapped value, or `fallback` for `nil` (Swift's `??`). */
    function GetOr(fallback: T): T {
      match this
      case Some(v) => v
      case None => fallback
    }
  }

  /** The outcome of an operation that can throw. */
  datatype Result<+R, +E> = Success(value: R) | Failure(error: E)
}
