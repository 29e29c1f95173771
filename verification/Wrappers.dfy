/** A value that may be missing: a null pointer, a handle not yet made, an operation that gave nothing. */
module Wrappers {
  datatype Option<T> = None | Some(value: T)
}
