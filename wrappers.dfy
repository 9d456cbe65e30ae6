/** Failure-carrying results: what the C# code signals with exceptions is
    returned here as a value. */
module Wrappers {

  /** A value of type R, or the error that stopped the operation. */
  datatype Result<+R, +E> = Success(value: R) | Failure(error: E)

  /** The outcome of an operation that returns nothing (a C# `void` method). */
  datatype Outcome<+E> = Pass | Fail(error: E)
}
