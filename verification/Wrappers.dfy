/** Optional values, results that can fail, and bytes. */
module Wrappers {
  datatype Option<+T> = None | Some(value: T)

  datatype Result<+T> = Success(value: T) | Failure

  type Byte = b: nat | b < 256
}
