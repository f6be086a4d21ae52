/** Failure-compatible wrappers shared by every part of the model.

    A Rust `panic!`, a failed `expect` or an out-of-range slice never
    returns to its caller; the model reports it as `Err(fault)` and every
    caller propagates it unchanged with `:-`. */
module Common {

  datatype Option<+T> = None | Some(value: T) {

    predicate IsFailure() {
      None?
    }

    function PropagateFailure<U>(): Option<U>
      requires None?
    {
      None
    }

    function Extract(): T
      requires Some?
    {
      value
    }

    /** `Some(v)` becomes `Ok(v)`, `None` becomes `Err(error)`. */
    function ToResultOr<E>(error: E): Result<T, E> {
      match this
      case Some(v) => Ok(v)
      case None => Err(error)
    }
  }

  datatype Result<+T, +E> = Ok(value: T) | Err(error: E) {

    predicate IsFailure() {
      Err?
    }

    function PropagateFailure<U>(): Result<U, E>
      requires Err?
    {
      Err(error)
    }

    function Extract(): T
      requires Ok?
    {
      value
    }
  }

  /** Smaller of two naturals. */
  function Min(a: nat, b: nat): nat {
    if a <= b then a else b
  }
}
