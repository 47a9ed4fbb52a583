/** Optional values, for Python's `None` and for partial conversions. */
module Wrappers {

  datatype Option<T> = None | Some(value: T)
}
