/** Option and Result values used in place of Python's None and of the
    exceptions/flash messages that the request handlers turn failures into. */
module Wrappers {

  datatype Option<+T> = None | Some(value: T)

  datatype Result<+R, +E> = Ok(value: R) | Err(error: E)
}
