/** Optional values and results with an error, used for nullable columns,
    lookups that may miss and validators that may raise. */
module Wrappers {

  datatype Option<+T> = None | Some(value: T)

  datatype Result<+T, +E> = Ok(value: T) | Err(error: E)
}
