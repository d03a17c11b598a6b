/** The optional value used throughout the model: JavaScript's `undefined`/`null`
    for a missing field, a failed lookup or a parse that yielded `NaN`. */
module Options {

  datatype Option<+T> = None | Some(value: T) {

    /** The value, or `default` when absent (the `x ?? default` idiom). */
    function GetOr(default: T): T {
      match this
      case Some(v) => v
      case None => default
    }
  }
}
