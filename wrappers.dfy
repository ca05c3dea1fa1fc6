/** Failure-carrying results for the operations of the renderer that throw in the source. */
module Wrappers {

  /** A nullable value (`T?` in the source). */
  datatype Option<+T> = None | Some(value: T)

  /** The kinds of exception the core raises. */
  datatype Failure =
    | IllegalArgument   // IllegalArgumentException from a `require` check
    | IndexOutOfBounds  // an array or string index out of bounds
    | AssertionFailed   // AssertionError from a node whose policies were never assigned
    | NegativeArraySize // NegativeArraySizeException from allocating a surface or a string builder of negative size

  /** The value of an operation that either returns or throws. */
  datatype Result<+T> = Ok(value: T) | Err(error: Failure)

  /** The outcome of an operation that returns `Unit` or throws. */
  datatype Outcome = Pass | Fail(error: Failure)
}
