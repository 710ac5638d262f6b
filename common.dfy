/** Option and Result, the failure-compatible wrappers used across the model. */
module Common {

  datatype Option<+T> = None | Some(value: T)

  /** A Python exception that propagates to the caller becomes an `Err`. */
  datatype Result<+T, +E> = Ok(value: T) | Err(error: E) {
    predicate IsFailure() { Err? }

    function PropagateFailure<U>(): Result<U, E>
      requires Err?
    {
      Err(error)
    }

    function Extract(): T
      requires Ok?
    {
      value
    }
  }
}
