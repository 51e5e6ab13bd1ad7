/** Option and Result values, standing in for Python's None and for the
    exceptions the front end catches before it prints an error and exits. */
module Wrappers {

  datatype Option<+T> = None | Some(value: T)

  datatype Result<+T, +E> = Ok(value: T) | Err(error: E)
}
