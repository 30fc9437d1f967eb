/** A value that may be missing: a nil pointer, a NULL column. */
module Wrappers {
  datatype Option<+T> = None | Some(value: T)
}
