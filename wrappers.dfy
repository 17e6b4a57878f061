/** Failure-carrying results for the codec: a value, or the error the source raises. */
module Wrappers {

  /** An optional value; the decoders return None on malformed input. */
  datatype Option<+T> = None | Some(value: T)

  /** A value or an error. */
  datatype Result<+T, +E> = Ok(value: T) | Err(error: E)
}
