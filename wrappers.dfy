/** Failure-carrying results for the operations that raise in the evaluator. */
module Wrappers {

  /** The value of an operation that either returns or raises. */
  datatype Result<T, E> = Ok(value: T) | Err(error: E)

  /** The outcome of an operation that returns nothing but may raise. */
  datatype Outcome<E> = Pass | Fail(error: E)
}
