/** The optional-value type used wherever the calendar code meets a missing or
    invalid value (`null`, `undefined`, an Invalid Date). */
module Wrappers {

  datatype Option<+T> = None | Some(value: T) {

    /** The wrapped value, or the fallback (JavaScript's `x || fallback` on a missing value). */
    function GetOr(default: T): T {
      match this
      case Some(v) => v
      case None => default
    }
  }
}
