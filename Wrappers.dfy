/** Optional values, standing for the absent entry of a lookup or the
    exception a standard-library call throws. */
module Wrappers {
  datatype Option<T> = None | Some(value: T)
}
