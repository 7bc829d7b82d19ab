/** Optional values: a row that a query may not find, a form field that may be missing. */
module Wrappers {
  datatype Option<+T> = None | Some(value: T)
}
