/** Optional values, for fields the source includes only on some branches. */
module Wrappers {
  datatype Option<T> = None | Some(value: T)
}
