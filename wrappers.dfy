/** The optional value used wherever the extraction script reads something
    that may be `null` or `undefined` (a missing element, a missing parent). */
module Wrappers {

  datatype Option<+T> = None | Some(value: T) {

    /** The value, or `default` when there is none. */
    function GetOr(default: T): T {
      match this
      case Some(v) => v
      case None => default
    }
  }
}
