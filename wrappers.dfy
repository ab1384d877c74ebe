/** Option and Result, the two failure-carrying types the model uses. */
module Wrappers {

  /** `None` stands for Python's `None`; `Some(v)` for a present value. */
  datatype Option<+T> = None | Some(value: T)

  /** `Err` stands for an exception the view lets escape (an HTTP error). */
  datatype Result<+T, +E> = Ok(value: T) | Err(error: E)
}
