/** An optional value: stands for JavaScript's `undefined` (or a value of the
    wrong kind) where a task field or a lookup may be missing. */
module Options {

  datatype Option<+T> = None | Some(value: T) {

    /** The value, or `default` when there is none (JavaScript's `x || default`). */
    function GetOr(default: T): T {
      match this
      case Some(v) => v
      case None => default
    }
  }
}
