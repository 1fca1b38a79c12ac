/** The optional value used throughout the model for Python's `None` and for steps that can raise. */
module Wrappers {

  datatype Option<+T> = None | Some(value: T) {

    /** The value if there is one, `default` otherwise (Python's `d.get(key, default)` shape). */
    function GetOr(default: T): T {
      match this
      case Some(v) => v
      case None => default
    }
  }
}
