/** Optional values, used for the results of lookups and conversions that may find nothing. */
module Wrappers {

  datatype Option<T> = None | Some(value: T)
}
