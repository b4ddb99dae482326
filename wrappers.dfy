/** Option and Result types shared by every module of the model. */
module Wrappers {

  /** A value that may be absent (JavaScript `undefined`/`null` where the source tests for it). */
  datatype Option<+T> = None | Some(value: T) {
    function GetOr(default: T): T {
      match this
      case Some(v) => v
      case None => default
    }
  }

  /** The outcome of an operation that the source can end by throwing or rejecting. */
  datatype Result<+T, +E> = Ok(value: T) | Err(error: E) {
    predicate IsFailure() {
      Err?
    }

    function PropagateFailure<U>(): Result<U, E>
      requires Err?
    {
      Err(error)
    }

    function Extract(): T
      requires Ok?
    {
      value
    }
  }

  /** The outcome of an operation that returns nothing but can throw. */
  datatype Outcome<+E> = Pass | Fail(error: E)
}
