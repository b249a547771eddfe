/** The optional-value datatype the model uses for absent feed fields. */
module Wrappers {

  /** Some value, or nothing (Python's `None` / a missing attribute). */
  datatype Option<+T> = None | Some(value: T) {

    /** The wrapped value, or `default` when there is none. */
    function GetOr(default: T): T {
      match this
      case Some(v) => v
      case None => default
    }
  }
}
