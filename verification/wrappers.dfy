/** The optional value used throughout the model: `None` stands for JavaScript's
    `undefined` (an absent body field, a missing row) or, for numbers, `NaN`. */
module Wrappers {

  datatype Option<T> = None | Some(value: T) {

    /** The wrapped value, or `default` when there is none (a destructuring default). */
    function GetOr(default: T): T {
      match this
      case Some(v) => v
      case None => default
    }
  }
}
