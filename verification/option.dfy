/** Python's `None`-or-value, used wherever the source returns or stores an optional value. */
module Options {

  datatype Option<T> = None | Some(value: T)
  {
    /** `value if value is not None else default`. */
    function GetOr(default: T): T {
      match this
      case Some(v) => v
      case None => default
    }
  }
}
