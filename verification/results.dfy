/** Failure-carrying values shared by the model: an optional value (a
    TypeScript `T | undefined`) and the outcome of a call that can fail
    (a rejected promise or a thrown `Error`). */
module Results {

  /** A value that may be absent, as `string | undefined` is in the source. */
  datatype Option<+T> = None | Some(value: T)

  /** The outcome of a call that either produces a value or fails with an error. */
  datatype Result<+T, +E> = Ok(value: T) | Err(error: E) {

    predicate IsFailure() {
      Err?
    }

    function PropagateFailure<U>(): Result<U, E>
      requires Err?
    {
      Err(error)
    }

    function Extract(): T
      requires Ok?
    {
      value
    }
  }
}
