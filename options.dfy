/** The conventional optional value: Python's `None` versus a present value. */
module Options {

  datatype Option<+T> = None | Some(value: T) {

    /** The present value, or `default` when there is none (Python's `x or default`,
        `os.getenv(name, default)`). */
    function GetOr(default: T): T {
      if Some? then value else default
    }
  }
}
