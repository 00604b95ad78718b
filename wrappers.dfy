/** Optional values, standing in for the C idiom of a NULL pointer or a -1 return. */
module Wrappers {
  datatype Option<T> = None | Some(value: T)
}
