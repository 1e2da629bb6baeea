/** The optional value used throughout the model: a JavaScript `null`/`undefined` is `None`. */
module Wrappers {
  datatype Option<+T> = None | Some(value: T) {
    /** `x ?? d` / `x || d` on an optional value. */
    function GetOr(default: T): T {
      match this
      case Some(v) => v
      case None => default
    }
  }
}
