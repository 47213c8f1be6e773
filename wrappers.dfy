/** Error reporting shared by every module: the C++ exception classes the source throws,
    and the two failure-compatible result types used in place of `throw`. */
module Wrappers {

  /** The standard exceptions thrown by the source. */
  datatype Error = InvalidArgument | OutOfRange | RuntimeError

  /** Either the value an operation returns or the exception it throws. */
  datatype Result<T> = Ok(value: T) | Err(error: Error)

  /** The outcome of an operation that returns nothing: it completes or it throws. */
  datatype Outcome = Pass | Fail(error: Error)
}
