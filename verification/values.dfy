/** Values as the widgets' option objects hold them, and the truthiness rule
    that a test such as `if (options.accordion)` applies to them. */
module Values {

  /** The conventional Some/None datatype, standing for a value or `null`. */
  datatype Option<+T> = None | Some(value: T) {

    /** The value in Some, or the given default for None. */
    function GetOr(default: T): T {
      match this
      case Some(v) => v
      case None => default
    }
  }

  /** The values an option can take: what an object literal or a caller's
      override object can supply, and what a `data-*` attribute supplies
      (always a string). Numbers are integers here. */
  datatype Value = Undefined | Null | Bool(b: bool) | Num(n: int) | Str(s: string)

  /** JavaScript's ToBoolean on the values above. */
  predicate Truthy(v: Value) {
    match v
    case Undefined => false
    case Null => false
    case Bool(b) => b
    case Num(n) => n != 0
    case Str(s) => s != ""
  }
}
