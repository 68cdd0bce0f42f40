/** Optional values, for Go's nil-or-value fields and nil-or-error results. */
module Wrappers {

  datatype Option<+T> = None | Some(value: T)
}
