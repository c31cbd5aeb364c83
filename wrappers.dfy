/** Option and Result: the absent value and the raised exception of the modelled code. */
module Wrappers {

  /** A value that may be absent (Python's `Optional[...]`). */
  datatype Option<+T> = None | Some(value: T)

  /** Either a value or the error the operation raised instead. */
  datatype Result<+T, +E> = Ok(value: T) | Err(error: E)
}
