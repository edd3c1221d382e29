/** The exceptions the graph code raises, as values. */
module Errors {

  /** The Java exception classes the core throws. */
  datatype Error =
    | IllegalArgument    // IllegalArgumentException: negative counts, invalid vertex in edge removal
    | IndexOutOfBounds   // IndexOutOfBoundsException: invalid vertex, bad list insertion index
    | NoSuchElement      // the token reader ran out of input

  /** The outcome of an operation that returns a value or throws. */
  datatype Result<T> = Ok(value: T) | Err(error: Error)

  /** The outcome of an operation that returns nothing or throws. */
  datatype Outcome = Done | Failed(error: Error)
}
