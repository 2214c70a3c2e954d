/** The Python exceptions the modelled build helpers can raise, and the
    option and result types that carry them in place of `raise`. */
module Results {

  /** The exceptions raised by the modelled code. */
  datatype PyError =
    | TypeError   // a value of the wrong shape: a scalar where a dict or list is needed
    | IndexError  // `s[0]` or `s[-1]` on the empty string
    | KeyError    // `d[k]` for a key `k` that the dict does not hold

  /** Python's optional value: `None` or some value. */
  datatype Option<+T> = None | Some(value: T) {

    /** The held value, or `default` when there is none. */
    function GetOr(default: T): T {
      match this
      case Some(v) => v
      case None => default
    }
  }

  /** The outcome of a call that either returns a value or raises. */
  datatype Result<+T> = Ok(value: T) | Err(error: PyError)
}
