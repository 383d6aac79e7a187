/** Optional values, standing for the C++ program's nullable pointers. */
module Wrappers {

  datatype Option<T> = None | Some(value: T)
}
