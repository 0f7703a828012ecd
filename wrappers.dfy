/** Optional values, used wherever the source returns a null pointer or an "unset" sentinel. */
module Wrappers {

  datatype Option<+T> = None | Some(value: T)
}
