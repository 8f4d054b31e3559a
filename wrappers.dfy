/** Optional values, used for conversions that may fail. */
module Wrappers {
  datatype Option<+T> = None | Some(value: T)
}
