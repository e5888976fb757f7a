/** The optional-value datatype used throughout the model. */
module Wrappers {

  /** `None` stands for a JavaScript `undefined` (or NaN, for numbers). */
  datatype Option<+T> = None | Some(value: T) {

    /** The encapsulated value, or `default` when there is none. */
    function GetOr(default: T): T {
      match this
      case Some(v) => v
      case None => default
    }
  }
}
