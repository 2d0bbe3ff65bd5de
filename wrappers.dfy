/** Optional values: a price that failed to parse is absent, not a sentinel number. */
module Wrappers {
  datatype Option<+T> = None | Some(value: T)
}
