/** Python's `None` and optional values. */
module Wrappers {

  /** An optional value: `None` is Python's `None`, `Some(v)` a present value. */
  datatype Option<+T> = None | Some(value: T) {

    /** The carried value, or `default` when there is none. */
    function GetOr(default: T): T {
      match this
      case Some(v) => v
      case None => default
    }
  }
}
