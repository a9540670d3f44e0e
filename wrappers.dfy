/** Optional values: a slot index that may be absent (the C code's null pointer). */
module Wrappers {
  datatype Option<+T> = None | Some(value: T)
}
