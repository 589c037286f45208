/** Failure values: `Option` for a missing entry, `Result` for an operation that may throw. */
module Results {
  datatype Option<+T> = None | Some(value: T) {
    function GetOr(default: T): T
    {
      if Some? then value else default
    }
  }

  datatype Result<+T, +E> = Ok(value: T) | Err(error: E)
}
