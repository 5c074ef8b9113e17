/** The optional-value type shared by the formatter and the timer modules
    (a JavaScript value that may be `undefined`). */
module Options {

  datatype Option<T> = None | Some(value: T) {

    /** The value if present, else `default` (JavaScript's `x || default` on a function-valued prop). */
    function GetOr(default: T): T {
      match this
      case Some(v) => v
      case None => default
    }
  }
}
