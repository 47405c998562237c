/** The usual optional-value datatype, used for results that may be absent
    (a regex match that fails, a codec that rejects its input). */
module Wrappers {

  datatype Option<+T> = None | Some(value: T) {

    /** The carried value, or `default` when there is none. */
    function GetOr(default: T): T {
      match this
      case Some(v) => v
      case None => default
    }
  }
}
