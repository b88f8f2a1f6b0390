/** Option, the stand-in for Go's nil-able pointers and "value, ok" pairs. */
module Wrappers {
  datatype Option<T> = None | Some(value: T)
}
