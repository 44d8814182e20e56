/** A value that may be missing, as a pointer that may be NULL. */
module Wrappers {
  datatype Option<T> = None | Some(value: T)
}
