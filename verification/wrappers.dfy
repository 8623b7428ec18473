/** Failure-compatible result types used throughout the model. */
module Wrappers {

  /** An optional value: the model's stand-in for PHP `null` / JavaScript `undefined`. */
  datatype Option<+T> = None | Some(value: T)

  /** A value or the reason the operation could not produce one. */
  datatype Result<+T, +E> = Ok(value: T) | Err(error: E) {

    predicate IsFailure() {
      Err?
    }

    function PropagateFailure<U>(): Result<U, E>
      requires Err?
    {
      Err(error)
    }

    function Extract(): T
      requires Ok?
    {
      value
    }
  }
}
