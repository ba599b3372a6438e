/** The optional value the three components return where the source returns
    `None`: a missing module or exercise, a path with nothing left to do. */
module Options {

  datatype Option<+T> = None | Some(value: T) {

    /** The wrapped value, or `default` when there is none (Python's `x or default`
        for an optional list argument). */
    function GetOr(default: T): T {
      match this
      case Some(v) => v
      case None => default
    }
  }
}
