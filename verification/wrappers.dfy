/** Failure-compatible result types shared by the NV storage and BDB models. */
module Wrappers {

  /** A value that may be absent: the model of a C accessor that returns NULL,
      or of a call that returns 1 without producing a value. */
  datatype Option<+T> = None | Some(value: T) {
    predicate IsFailure() {
      None?
    }

    function PropagateFailure<U>(): Option<U>
      requires None?
    {
      None
    }

    function Extract(): T
      requires Some?
    {
      value
    }
  }

  /** Either a value or an error code. */
  datatype Result<+T, +E> = Pass(value: T) | Fail(error: E) {
    predicate IsFailure() {
      Fail?
    }

    function PropagateFailure<U>(): Result<U, E>
      requires Fail?
    {
      Fail(error)
    }

    function Extract(): T
      requires Pass?
    {
      value
    }
  }
}
