/** Failure-carrying wrappers shared by every module of the model. */
module Wrappers {

  datatype Option<+T> = None | Some(value: T)

  /** The value of a computation that either succeeds or fails with an error. */
  datatype Result<+T, +E> = Ok(value: T) | Err(error: E) {
    predicate IsFailure() { Err? }

    function PropagateFailure<U>(): Result<U, E>
      requires Err?
    {
      Err(error)
    }

    function Extract(): T
      requires Ok?
    {
      value
    }
  }

  /** The outcome of a state-changing operation that may abort. */
  datatype Outcome<+E> = Pass | Fail(error: E)
}
