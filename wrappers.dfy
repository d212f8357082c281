/** Optional values: a result that may be absent (a failed conversion, a rejected dialog). */
module Wrappers {
  datatype Option<+T> = None | Some(value: T)
}
