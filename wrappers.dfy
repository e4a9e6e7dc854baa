/** Option and Result, the two failure-carrying shapes the model needs. */
module Wrappers {

  /** An optional value: `None` stands for Python's `None`. */
  datatype Option<+T> = None | Some(value: T)

  /** Either a value or the error the source would raise. */
  datatype Result<+R, +E> = Ok(value: R) | Err(error: E)
}
