/** `Option` and `Result`, shared by the other modules. */
module Wrappers {

  /** A value that may be missing (a JavaScript `undefined` result, a `pop()` of an empty list). */
  datatype Option<+T> = None | Some(value: T) {

    /** The carried value, or `default` when there is none. */
    function GetOr(default: T): T {
      match this
      case Some(v) => v
      case None => default
    }
  }

  /** The outcome of an operation that can throw: a value, or the error it raised. */
  datatype Result<+R, +E> = Success(value: R) | Failure(error: E)
}
