/** Optional values: a C pointer that may be NULL, or an optional callback. */
module Wrappers {
  datatype Option<+T> = None | Some(value: T)
}
