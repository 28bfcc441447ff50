/** Option and Result values, used where the Python code returns "nothing"
    or raises an exception that its caller handles. */
module Wrappers {

  datatype Option<+T> = None | Some(value: T)

  datatype Result<+T, +E> = Ok(value: T) | Err(error: E)
}
