/** The optional-value type used wherever the source has an optional field
    (`field?: T`) or a value that may be `undefined`. */
module Wrappers {

  datatype Option<+T> = None | Some(value: T) {

    /** An optional field read with a fallback, as in `field || fallback`:
        the field when it is set, the fallback when it is not. */
    function GetOr(default: T): T {
      match this
      case Some(v) => v
      case None => default
    }
  }
}
