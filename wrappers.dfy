/** Optional values, standing for PHP's `null`/`false` returns. */
module Wrappers {
  datatype Option<T> = None | Some(value: T)
}
