/** Option and Result, the failure-carrying types used throughout the model
    in place of Kotlin's nullable values and thrown exceptions. */
module Wrappers {

  /** A Kotlin nullable value: `None` is `null`. */
  datatype Option<+T> = None | Some(value: T) {

    /** The elvis operator `x ?: default`. */
    function GetOr(default: T): T {
      match this
      case Some(v) => v
      case None => default
    }
  }

  /** The outcome of a computation that may throw: `Failure` carries the
      exception's message. */
  datatype Result<+R, +E> = Success(value: R) | Failure(error: E)
}
