/** Optional values and pass/fail outcomes shared by the other modules. */
module Wrappers {

  /** A value that may be absent; plays the part of Python's `None`. */
  datatype Option<+T> = None | Some(value: T)

  /** The result of an operation that returns nothing on success and raises on failure. */
  datatype Outcome<+E> = Pass | Fail(error: E)
}
