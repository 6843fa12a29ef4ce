/** Result and outcome values standing in for the exceptions the program raises. */
module Wrappers {

  /** A value, or the error that stopped its computation. */
  datatype Result<+T, +E> = Ok(value: T) | Err(error: E)

  /** Success without a value, or the error that aborted the run. */
  datatype Outcome<+E> = Pass | Fail(error: E)
}
