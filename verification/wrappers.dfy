/** Failure-compatible result types shared by every codec. */
module Wrappers {

  datatype Option<+T> = None | Some(value: T)

  /** The outcome of a decode or encode step: a value, or the error the
      Python importers and exporters raise at that point. */
  datatype Result<+T, +E> = Ok(value: T) | Err(error: E) {

    predicate IsFailure() {
      Err?
    }

    function PropagateFailure<U>(): Result<U, E>
      requires Err?
    {
      Err(error)
    }

    function Extract(): T
      requires Ok?
    {
      value
    }
  }
}
