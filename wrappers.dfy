/** Optional values: a DOM getter that may return null, a search that may find nothing. */
module Wrappers {

  datatype Option<+T> = None | Some(value: T)
}
