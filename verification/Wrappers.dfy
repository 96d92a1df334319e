/** Optional values, for the nil pointers and two-valued results of the original. */
module Wrappers {
  datatype Option<+T> = None | Some(value: T)
}
