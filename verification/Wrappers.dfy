/** A value that may be missing: a null pointer, or no result. */
module Wrappers {
  datatype Option<+T> = None | Some(value: T)
}
