/** Failure-carrying result types shared by the modules of this model. */
module Wrappers {

  /** A value that may be absent: JavaScript's `undefined` / `null`. */
  datatype Option<+T> = None | Some(value: T) {
    /** The value, or `fallback` when it is absent. */
    function GetOr(fallback: T): T {
      match this
      case Some(v) => v
      case None => fallback
    }
  }

  /** The outcome of an operation that can throw or reject. */
  datatype Result<+R, +E> = Ok(value: R) | Err(error: E)
}
