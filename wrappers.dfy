/** Optional values and pass/fail outcomes used across the model. */
module Wrappers {

  /** A value that may be absent (JavaScript's `undefined`). */
  datatype Option<+T> = None | Some(value: T)

  /** The outcome of an operation that may throw. */
  datatype Outcome<+E> = Pass | Fail(error: E)
}
