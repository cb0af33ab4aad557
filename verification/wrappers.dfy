/** A value that may be missing: an optional field of a thrown error, an
    unbound contract handle, a status line never written. */
module Wrappers {

  datatype Option<+T> = None | Some(value: T) {

    /** The carried value, or `fallback` when there is none. */
    function GetOr(fallback: T): T {
      if Some? then value else fallback
    }
  }
}
