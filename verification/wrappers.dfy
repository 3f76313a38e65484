/** Failure-carrying values that stand in for Go's `(value, error)` and bare `error` returns. */
module Wrappers {

  /** A value that may be missing; usable with `:-`. */
  datatype Option<+T> = None | Some(value: T) {

    predicate IsFailure() {
      None?
    }

    function PropagateFailure<U>(): Option<U>
      requires None?
    {
      None
    }

    function Extract(): T
      requires Some?
    {
      value
    }
  }

  /** The outcome of an operation that yields a value or fails with an error. */
  datatype Result<+T, +E> = Ok(value: T) | Err(error: E)

  /** The outcome of a check that yields nothing on success (Go's `error` being `nil`). */
  datatype Outcome<+E> = Pass | Fail(error: E)
}
