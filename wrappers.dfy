/** An optional value: JavaScript's null / undefined and Python's missing
    key or None. */
module Wrappers {
  datatype Option<T> = None | Some(value: T)
}
