/** A value that may be absent: a null pointer, or a call that failed. */
module Wrappers {
  datatype Option<+T> = None | Some(value: T)
}
