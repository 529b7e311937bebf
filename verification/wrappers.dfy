/** Failure-carrying results, and the Python exceptions that escape the core. */
module Wrappers {

  /** A value that may be absent, as Python's `None`. */
  datatype Option<+T> = None | Some(value: T)

  /** A value, or the exception that was raised instead of returning it. */
  datatype Result<+T, +E> = Success(value: T) | Failure(error: E)
}

module Exceptions {

  /**
   * The exceptions the pipeline lets escape: `IndexError` from pack128 for
   * an integer outside the 128-bit range (carrying that integer), and the
   * `ZeroDivisionError` of a modulo by the length of an empty alphabet.
   */
  datatype Exception = IndexError(n: int) | ZeroDivisionError
}
