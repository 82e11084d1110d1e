/** Option and Result values used throughout the model. */
module Wrappers {

  /** `None` stands for Ruby's `nil` (or a key missing from a hash). */
  datatype Option<+T> = None | Some(value: T)

  /** An operation that either yields a value or raises an error. */
  datatype Result<+R, +E> = Ok(value: R) | Err(error: E)
}
