/** Option and Result: the error paths of the service functions (a Python
    `None` result, or an exception raised to the caller). */
module Wrappers {

  datatype Option<+T> = None | Some(value: T)

  datatype Result<+T, +E> = Ok(value: T) | Err(error: E)
}
