/** Small failure-compatible helper used in place of a nullable pointer. */
module Wrappers {

  /** A value that may be absent, standing for a pointer that may be null. */
  datatype Option<+T> = None | Some(value: T) {

    /** Returns the wrapped value, or `default` when there is none. */
    function GetOr(default: T): (r: T)
      ensures Some? ==> r == value
      ensures None? ==> r == default
    {
      match this
      case Some(v) => v
      case None => default
    }
  }
}
