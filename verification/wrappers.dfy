/** Failure-compatible optional values shared by every module of the model. */
module Wrappers {

  /** A value that may be missing: a lookup that finds nothing, a parse that fails. */
  datatype Option<+T> = None | Some(value: T) {

    /** Returns the value held in Some, or `default` if None */
    function GetOr(default: T): T {
      match this
      case Some(v) => v
      case None => default
    }
  }
}
