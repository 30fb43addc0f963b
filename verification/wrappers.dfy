/** The optional value used wherever the source uses `None`. */
module Wrappers {

  datatype Option<+T> = None | Some(value: T) {

    /** Returns the value in `Some`, or `default` for `None`. */
    function GetOr(default: T): (value: T) {
      match this
      case Some(v) => v
      case None => default
    }
  }
}
