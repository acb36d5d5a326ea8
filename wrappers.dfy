/** A value that may be absent: a JavaScript `undefined`/`null`, an optional
    field, or a localStorage key that was never written. */
module Wrappers {

  datatype Option<+T> = None | Some(value: T) {

    /** The value, or `default` when absent (`x ?? default`, `x || default`). */
    function GetOr(default: T): T {
      match this
      case Some(v) => v
      case None => default
    }
  }
}
