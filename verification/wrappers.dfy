/** The JavaScript `undefined`/`null` of the source, and the success/failure
    objects its storage functions return, as failure-compatible datatypes. */
module Wrappers {

  /** A value that may be absent (`undefined` or `null` in the source). */
  datatype Option<+T> = None | Some(value: T) {

    /** The value, or `default` when absent (the source's `x || default`). */
    function GetOr(default: T): T {
      match this
      case Some(v) => v
      case None => default
    }
  }

  /** `{ success: true, ... }` or `{ success: false, error }`. */
  datatype Result<+R, +E> = Success(value: R) | Failure(error: E)
}
