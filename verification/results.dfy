/** The outcome types the decoding stages return. `Result` supports the
    `:-` operator, so a chain of stages stops at the first fatal error. */
module Results {

  /** A value that may be absent. */
  datatype Option<+T> = None | Some(value: T)

  /** The outcome of a stage: the value it decoded, or the reason the
      program gives up. The three members below are what `:-` asks for. */
  datatype Result<+T, +E> = Ok(value: T) | Err(error: E) {

    predicate IsFailure() {
      Err?
    }

    function PropagateFailure<U>(): Result<U, E>
      requires Err?
    {
      Err(error)
    }

    function Extract(): T
      requires Ok?
    {
      value
    }
  }
}
