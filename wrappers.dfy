/** Small failure-compatible wrappers shared by the model's modules. */
module Wrappers {

  /** A value that may be absent (a JavaScript `undefined`). */
  datatype Option<+T> = None | Some(value: T) {
    function GetOr(default: T): T {
      match this
      case Some(v) => v
      case None => default
    }
  }

  /** The value of an operation that either resolves or fails. */
  datatype Result<+T, +E> = Success(value: T) | Failure(error: E)
}
