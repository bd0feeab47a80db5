/** Failure-carrying wrappers shared by the model: the Rust `Option` and
    `Result`. `Option` supports `:-`, so a reader can stop at the first piece
    of text it cannot read. */
module Results {

  /** Rust's `Option<T>`. */
  datatype Option<+T> = None | Some(value: T) {

    predicate IsFailure() {
      None?
    }

    function PropagateFailure<U>(): Option<U>
      requires None?
    {
      None
    }

    function Extract(): T
      requires Some?
    {
      value
    }
  }

  /** Rust's `Result<T, E>`. */
  datatype Result<+T, +E> = Ok(value: T) | Err(error: E)
}
