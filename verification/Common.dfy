/** Result types shared by every component. */
module Common {
  datatype Option<+T> = None | Some(value: T)

  /** An operation of the source that returns a value or raises. */
  datatype Result<+T, +E> = Ok(value: T) | Err(error: E)

  /** Multiplication by name, so that structural proofs can treat products as atoms. */
  function Times(a: real, b: real): real { a * b }
}
