/** The usual optional value: `None` stands for a JavaScript `null`/`undefined`
    or an SQL NULL, `Some(v)` for a present value. */
module Optional {

  datatype Option<+T> = None | Some(value: T) {

    /** The present value, or `default` when there is none. */
    function GetOr(default: T): (r: T)
      ensures Some? ==> r == value
      ensures None? ==> r == default
    {
      match this
      case Some(v) => v
      case None => default
    }
  }
}
