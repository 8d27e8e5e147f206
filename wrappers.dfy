/** Failure-compatible wrappers: Rust's `Option` and `anyhow::Result`. */
module Wrappers {

  datatype Option<+T> = None | Some(value: T) {
    /** `unwrap_or`: the held value, or `default` when there is none. */
    function GetOr(default: T): T {
      match this
      case Some(v) => v
      case None => default
    }

    /** `ok_or`: turns an absent value into the given error. */
    function ToResult<E>(error: E): Result<T, E> {
      match this
      case Some(v) => Ok(v)
      case None => Err(error)
    }
  }

  datatype Result<+T, +E> = Ok(value: T) | Err(error: E) {
    predicate IsFailure() {
      Err?
    }

    function PropagateFailure<U>(): Result<U, E>
      requires Err?
    {
      Err(error)
    }

    function Extract(): T
      requires Ok?
    {
      value
    }
  }
}
