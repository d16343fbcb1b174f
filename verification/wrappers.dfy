/** Failure-carrying result types shared by the rule engine and the search. */
module Wrappers {

  /** A value that may be absent: `None` plays the part of Python's `None`. */
  datatype Option<+T> = None | Some(value: T)

  /** A computation that either succeeds with a value or fails with an error. */
  datatype Outcome<+T, +E> = Success(value: T) | Failure(error: E)
}
