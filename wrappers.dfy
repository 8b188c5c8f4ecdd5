/** Option and Result values for the model's "may be absent" and "may fail" outcomes. */
module Wrappers {

  /** A value that may be absent, like Python's `None`. */
  datatype Option<+T> = None | Some(value: T)

  /** An outcome that is either a value or an error, like a Python call that may raise. */
  datatype Result<+R, +E> = Ok(value: R) | Err(error: E)
}
