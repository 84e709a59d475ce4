/** Option and completion wrappers shared by every module of the model. */
module Wrappers {

  /** A value that may be absent: JavaScript's `undefined` or `null` where the source tests for it. */
  datatype Option<+T> = None | Some(value: T) {
    function GetOr(default: T): T {
      match this
      case Some(v) => v
      case None => default
    }
  }

  /** How a JavaScript expression completes: with a value, or by throwing (a TypeError in every case modelled here). */
  datatype Completion<+T> = Normal(value: T) | Throw
}
