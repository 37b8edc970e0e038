/** The optional-value wrapper used throughout the model. */
module Wrappers {

  /** A value that may be absent: a missing JSON field, or input that ran out. */
  datatype Option<+T> = None | Some(value: T) {

    /** The wrapped value, or `default` when there is none (Python's `dict.get(key, default)`). */
    function GetOr(default: T): T {
      match this
      case Some(v) => v
      case None => default
    }
  }
}
