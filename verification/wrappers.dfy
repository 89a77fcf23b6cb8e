/** Failure-compatible wrappers shared by every module of the model. */
module Wrappers {

  /** An optional value: the source's `null` / `undefined` / "not found". */
  datatype Option<+T> = None | Some(value: T) {
    function GetOr(default: T): T {
      match this
      case Some(v) => v
      case None => default
    }
  }

  /** The outcome of an operation that may throw: `Err` carries the error message. */
  datatype Result<+T> = Ok(value: T) | Err(error: string)
}
