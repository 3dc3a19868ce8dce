/** Optional values, standing for Go's nil pointers and `*bool`. */
module Wrappers {

  datatype Option<+T> = None | Some(value: T)
}
