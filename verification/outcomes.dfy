/** Failure-carrying results for the operations of the golden models that can raise. */
module Outcomes {

  /** Either a value or the exception the Python code would raise instead. */
  datatype Result<+T, +E> = Ok(value: T) | Err(error: E)
}
