/** Optional results, for the functions that report failure by returning 0. */
module Wrappers {
  datatype Option<T> = None | Some(value: T)
}
