/** Optional values: a missing (null / NaN) field, an absent column. */
module Wrappers {

  datatype Option<+T> = None | Some(value: T)
}
