/** The optional and failure-carrying values shared by every module:
    Python's `None`, TypeScript's `null`/`undefined` and raised exceptions. */
module Wrappers {

  /** A value that may be absent (`None` in Python, `null`/`undefined` in TypeScript). */
  datatype Option<+T> = None | Some(value: T) {
    function GetOr(default: T): T {
      match this
      case Some(v) => v
      case None => default
    }
  }

  /** The outcome of an operation that may raise. */
  datatype Result<+T, +E> = Success(value: T) | Failure(error: E)
}
