/** Failure-carrying values shared by the modules of the ETL service model. */
module Wrappers {

  /** A cell or a result that may be absent (a NaN cell, a NaT timestamp). */
  datatype Option<+T> = None | Some(value: T)

  /** A step that either returns a value or raises an error described by a message. */
  datatype Result<+T, +E> = Ok(value: T) | Err(error: E)
}
