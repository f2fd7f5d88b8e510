/** Failure-compatible wrappers used by the resolver: an optional value and a
    value-or-error result, both usable with `:-`. */
module Results {

  datatype Option<+T> = None | Some(value: T)

  /** The outcome of a step that either produces a value or stops with an error;
      a Python exception escaping the step is an `Err`. */
  datatype Result<+T, +E> = Ok(value: T) | Err(error: E) {

    predicate IsFailure() {
      Err?
    }

    function PropagateFailure<U>(): Result<U, E>
      requires Err?
    {
      Err(error)
    }

    function Extract(): T
      requires Ok?
    {
      value
    }
  }
}
