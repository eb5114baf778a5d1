/** Failure-carrying return values. They stand in for the exceptions the
    Python scripts raise (`KeyError` on an unknown type, `ZeroDivisionError`
    on a zero block size) so that every error path is an ordinary value. */
module Wrappers {

  datatype Option<+T> = None | Some(value: T)

  /** Either a value or an error; usable with `:-`. */
  datatype Result<+T, +E> = Success(value: T) | Failure(error: E) {

    predicate IsFailure() {
      Failure?
    }

    function PropagateFailure<U>(): Result<U, E>
      requires Failure?
    {
      Failure(error)
    }

    function Extract(): T
      requires Success?
    {
      value
    }
  }
}
