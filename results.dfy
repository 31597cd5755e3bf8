/** Failure-compatible wrappers used throughout the model. */
module Results {

  datatype Option<+T> = None | Some(value: T)

  /** A computation that either produced a value or raised one of the
      source's exceptions. */
  datatype Result<+T, +E> = Ok(value: T) | Err(error: E) {
    predicate IsFailure() {
      Err?
    }

    function PropagateFailure<U>(): Result<U, E>
      requires Err?
    {
      Err(error)
    }

    function Extract(): T
      requires Ok?
    {
      value
    }
  }
}
