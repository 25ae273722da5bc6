/** Optional values and results-with-error, standing in for Python's `None`
    and for the calls that end the process or raise. */
module Outcomes {

  /** A value that may be absent, like a Python `Optional[str]`. */
  datatype Option<+T> = None | Some(value: T)

  /** A computed value, or the error that stopped the computation. */
  datatype Result<+T, +E> = Success(value: T) | Failure(error: E)
}
