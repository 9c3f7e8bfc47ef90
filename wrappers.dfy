/** The optional value used wherever the source returns a Swift `Optional`. */
module Wrappers {

  datatype Option<+T> = None | Some(value: T) {

    /** Swift's `optional ?? fallback`. */
    function GetOr(fallback: T): T {
      match this
      case Some(v) => v
      case None => fallback
    }
  }
}
