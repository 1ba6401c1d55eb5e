/** Optional values, standing in for std::optional in the C++ library. */
module Wrappers {

  datatype Option<+T> = None | Some(value: T)
}
