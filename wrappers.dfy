/** Optional values, for lookups that can miss and files that can be absent. */
module Wrappers {
  datatype Option<+T> = None | Some(value: T)
}
