/** Small failure-compatible wrappers shared by every module of the model.
    `None` stands for the source's `null`, for a failed `TryParse` and for
    an absent dictionary entry. */
module Wrappers {

  datatype Option<+T> = None | Some(value: T) {

    /** Returns the value held in Some, or `default` for None. */
    function GetOr(default: T): T {
      match this
      case Some(v) => v
      case None => default
    }
  }
}
