/** Optional values: a missing request field, a failed parse, a route without an id. */
module Wrappers {
  datatype Option<+T> = None | Some(value: T)
}
