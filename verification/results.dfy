/** Failure-carrying datatypes shared by the validators, the handlers and the client. */
module Results {

  /** An optional value: a column an insert may leave out, a lookup that may miss. */
  datatype Option<+T> = None | Some(value: T) {

    /** The value, or `default` when there is none (a column default). */
    function GetOr(default: T): T {
      match this
      case Some(v) => v
      case None => default
    }
  }

  /** The outcome of an operation that either yields a value or fails with an error. */
  datatype Result<+T, +E> = Ok(value: T) | Err(error: E)
}
