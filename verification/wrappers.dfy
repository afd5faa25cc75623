/** The optional value used wherever the dashboard reads a field that may be
    absent (`undefined` in the original program). */
module Wrappers {

  datatype Option<+T> = None | Some(value: T) {

    /** Returns the value held in Some, or `default` when None
        (the `x || default` idiom of the original program). */
    function GetOr(default: T): T {
      match this
      case Some(v) => v
      case None => default
    }
  }
}
