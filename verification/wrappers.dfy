/** Optional values: a nullable field, a lookup that can miss, a parse that can fail. */
module Wrappers {

  datatype Option<+T> = None | Some(value: T)
}
