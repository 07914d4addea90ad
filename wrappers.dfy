/** Success/failure values used in place of the status codes the C++ code returns. */
module Wrappers {

  datatype Option<+T> = None | Some(value: T)

  /** A value, or the error that stopped its computation. */
  datatype Result<+T, +E> = Ok(value: T) | Err(error: E)

  /** A status without a value: `Pass` is `st::ok`. */
  datatype Outcome<+E> = Pass | Fail(error: E)
}
