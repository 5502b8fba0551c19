/** The kinds of failure the matrix library raises, and the values that carry them. */
module MatrixErrors {

  /** One constructor per exception type the library throws (messages and inner causes are not kept). */
  datatype Error =
    | OutOfRange    // ArgumentOutOfRangeException: a negative dimension
    | NullArgument  // ArgumentNullException: a missing array or operand
    | BadIndex      // ArgumentException: an indexer access outside the shape
    | MatrixError   // MatrixException: any failure inside + - * Add Subtract Multiply

  /** The value an operation returns, or the exception it throws. */
  datatype Result<+T> = Ok(value: T) | Err(error: Error)

  /** The outcome of an operation that returns nothing (the indexer's setter). */
  datatype Outcome = Pass | Fail(error: Error)

  datatype Option<+T> = None | Some(value: T)
}
