/** Optional values and results with an error, used for SQL NULLs and for the
    operations that can fail part-way. */
module Wrappers {

  datatype Option<+T> = None | Some(value: T)

  datatype Result<+T, +E> = Ok(value: T) | Err(error: E)
}
