/** Optional values, for the results of lookups and allocations that can
    fail. */
module Wrappers {
  datatype Option<T> = None | Some(value: T)
}
