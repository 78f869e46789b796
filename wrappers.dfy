/** Option and Result, the two wrappers the model uses for values that may be absent
    and for operations that raise. */
module Wrappers {

  /** A value that may be missing: an unparsed cell, a search that found nothing. */
  datatype Option<+T> = None | Some(value: T)

  /** The outcome of an operation that the program lets raise an exception. */
  datatype Result<+T, +E> = Ok(value: T) | Err(error: E)
}
