/** Optional values, results and pass/fail outcomes, for Python's None and raised exceptions. */
module Wrappers {

  datatype Option<+T> = None | Some(value: T)

  datatype Result<+R, +E> = Ok(value: R) | Err(error: E)

  /** The outcome of a Python call that returns None or raises. */
  datatype Outcome<+E> = Pass | Fail(error: E)
}
