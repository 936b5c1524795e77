/** A value that may be missing, and a value or an error: Go's nil, missing map entries and `(value, err)` results. */
module Wrappers {
  datatype Option<+T> = None | Some(value: T)

  datatype Result<+T, +E> = Success(value: T) | Failure(error: E) {
    predicate IsFailure() { Failure? }
    function PropagateFailure<U>(): Result<U, E>
      requires Failure?
    { Failure(error) }
    function Extract(): T
      requires Success?
    { value }
  }
}
