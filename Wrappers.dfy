/** Optional values: a handler reply that may be absent, or a payload that may be missing. */
module Wrappers {

  datatype Option<+T> = None | Some(value: T)

}
