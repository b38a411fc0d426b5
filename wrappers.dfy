/** Optional values: a key that a request body may leave out, a lookup that may find nothing. */
module Wrappers {

  datatype Option<+T> = None | Some(value: T)
}
