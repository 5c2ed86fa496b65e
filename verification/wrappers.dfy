/** The optional-value datatype used for JavaScript's `null`/`undefined`. */
module Wrappers {

  /** `None` stands for a missing or `null` value. */
  datatype Option<+T> = None | Some(value: T) {

    /** The value, or `default` when there is none. */
    function GetOr(default: T): T {
      match this
      case Some(v) => v
      case None => default
    }
  }
}
