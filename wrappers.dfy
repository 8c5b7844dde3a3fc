/** The Option datatype shared by every module of the model. */
module Wrappers {

  /** `None` stands for JavaScript's `undefined` (or a thrown exception where noted). */
  datatype Option<+T> = None | Some(value: T) {

    /** The wrapped value, or `default` when there is none. */
    function GetOr(default: T): (r: T) {
      match this
      case Some(v) => v
      case None => default
    }
  }
}
