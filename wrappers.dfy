/** Optional values: a C argument that may be NULL. */
module Wrappers {

  datatype Option<T> = None | Some(value: T)
}
