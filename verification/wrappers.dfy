/** Optional values, used where a Go call returns a value together with an error. */
module Wrappers {

  datatype Option<+T> = None | Some(value: T)
}
