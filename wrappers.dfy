/** Optional values, standing in for the nullable pointers and "not found" results of the source. */
module Wrappers {

  datatype Option<+T> = None | Some(value: T)
}
