/** An optional value: a pending connection that may be absent, a
    query field that may be missing. */
module Optional {

  datatype Option<T> = None | Some(value: T) {

    /** The carried value, or `default` when there is none. */
    function GetOr(default: T): T {
      match this
      case Some(v) => v
      case None => default
    }
  }
}
