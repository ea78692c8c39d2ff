/** Optional values: a payload pointer or NULL. */
module Wrappers {

  datatype Option<+T> = None | Some(value: T)
}
