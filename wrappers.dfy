/** Option and Result, the two failure-carrying shapes the rest of the model uses. */
module Wrappers {

  /** A value that may be absent (JavaScript `null`, a missing key). */
  datatype Option<+T> = None | Some(value: T)

  /** Either a value or the error the source would raise or report. */
  datatype Result<+T, +E> = Ok(value: T) | Err(error: E)
}
