/** Optional values, results carrying an error, and pass/fail outcomes. */
module Wrappers {

  /** A value that may be absent: a JavaScript property that may be left out. */
  datatype Option<+T> = None | Some(value: T) {
    function GetOr(default: T): T {
      match this
      case Some(v) => v
      case None => default
    }
  }

  /** The value of a call that either returns or throws. */
  datatype Result<+R, +E> = Success(value: R) | Failure(error: E)

  /** The settlement of a promise of `void`: it resolves, or it rejects with an error. */
  datatype Outcome<+E> = Pass | Fail(error: E)
}
