/** The Some/None datatype: an optional value, such as a key that a
    JavaScript object may or may not carry, or an array element that
    destructuring may find `undefined`. */
module Optional {

  datatype Option<+T> = None | Some(value: T) {

    /** The value when present, `default` otherwise. */
    function GetOr(default: T): T {
      match this
      case Some(v) => v
      case None => default
    }
  }
}
