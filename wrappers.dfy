/** Optional values, standing for PHP's `null` alternatives. */
module Wrappers {
  datatype Option<+T> = None | Some(value: T)
}
