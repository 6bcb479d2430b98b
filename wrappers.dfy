/** Optional values: an absent form field, a row that was not found. */
module Wrappers {
  datatype Option<+T> = None | Some(value: T)
}
