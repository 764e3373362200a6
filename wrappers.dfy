/** Optional values, used where the source returns null or a "not found" result. */
module Wrappers {
  datatype Option<+T> = None | Some(value: T)
}
