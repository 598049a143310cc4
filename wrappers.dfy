/** Optional values and results with an error, used for optional record
    fields and for the errors that resolution throws. */
module Wrappers {

  datatype Option<+T> = None | Some(value: T)

  datatype Result<+T, +E> = Ok(value: T) | Err(error: E)
}
