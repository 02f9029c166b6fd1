/** Option and Result, the two shapes every lookup and every service call
    returns: Python's `None` becomes `None`, a raised `ValueError` becomes `Err`. */
module Wrappers {

  datatype Option<T> = None | Some(value: T)

  datatype Result<T, E> = Ok(value: T) | Err(error: E)
}
