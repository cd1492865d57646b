/** Option and Result, the shapes the modelled code uses for "maybe absent" and "value or error". */
module Wrappers {

  datatype Option<+T> = None | Some(value: T)

  datatype Result<+T, +E> = Ok(value: T) | Err(error: E)
}
