/** Optional values: a missing header, an unset setting, a lookup that finds nothing. */
module Wrappers {
  datatype Option<+T> = None | Some(value: T)
}
