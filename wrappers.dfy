/** Option and Result values used for the source's optional arguments and raised errors. */
module Wrappers {

  datatype Option<+T> = None | Some(value: T)

  /** `Err` stands for a Python exception that propagates to the caller. */
  datatype Result<+T, +E> = Ok(value: T) | Err(error: E)
}
