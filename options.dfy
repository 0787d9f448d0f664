/** The optional value used for dictionary keys that may be absent and for
    values Python represents as None. */
module Options {

  datatype Option<T> = None | Some(value: T) {

    /** Python's `d.get(key, default)`: the stored value, or the default when absent. */
    function GetOr(default: T): T {
      match this
      case Some(v) => v
      case None => default
    }
  }
}
