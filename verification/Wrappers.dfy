/** Optional values, used where the original holds a pointer that may be null. */
module Wrappers {
  datatype Option<+T> = None | Some(value: T)
}
