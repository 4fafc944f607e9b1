/** Option and Result, the shapes of Python's `None` and of a call that may raise. */
module Wrappers {

  datatype Option<T> = None | Some(value: T)

  datatype Result<T, E> = Ok(value: T) | Err(error: E)
}
