/** Optional values: Go's "value or nil" (a nil error, a missing query key). */
module Wrappers {

  datatype Option<+T> = None | Some(value: T)
}
