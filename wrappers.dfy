/** Optional values: a missing storage key, an unparsable date, no active filter button. */
module Wrappers {
  datatype Option<T> = None | Some(value: T)
}
