/** Option and Result, the two failure-carrying shapes the library returns. */
module Wrappers {

  /** An optional value, as returned by `PartialOrd::partial_cmp`. */
  datatype Option<+T> = None | Some(value: T)

  /** A success value or an error value, as returned by the parsers. */
  datatype Result<+R, +E> = Ok(value: R) | Err(error: E)
}
