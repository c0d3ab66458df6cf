/** Failure-compatible wrappers shared by every module of the model. */
module Wrappers {

  /** A value that may be absent (JavaScript `null` / `undefined`). */
  datatype Option<+T> = None | Some(value: T) {

    /** The value, or `default` when absent (JavaScript `??`). */
    function GetOr(default: T): T {
      match this
      case Some(v) => v
      case None => default
    }
  }

  /** Either a value or the error that a throwing operation raised. */
  datatype Result<+T, +E> = Success(value: T) | Failure(error: E)
}
