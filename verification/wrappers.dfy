/** Failure-carrying result types shared by the parsers. */
module Wrappers {

  /** A value that may be absent: `None` stands for "not a number" or "no such entry". */
  datatype Option<+T> = None | Some(value: T)

  /** The outcome of an operation that the original program aborts with an exception. */
  datatype Result<+R, +E> = Success(value: R) | Failure(error: E) {
    predicate IsFailure() { Failure? }

    function PropagateFailure<U>(): Result<U, E>
      requires Failure?
    {
      Failure(error)
    }

    function Extract(): R
      requires Success?
    {
      value
    }
  }
}
