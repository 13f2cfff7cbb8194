/** Option and Result, the two wrapper types the rest of the model uses for
    Python's `None` and for the exceptions and error returns of the source. */
module Wrappers {

  datatype Option<+T> = None | Some(value: T)

  datatype Result<+R, +E> = Ok(value: R) | Err(error: E)
}
