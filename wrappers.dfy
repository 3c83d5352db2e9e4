/** A pointer that may be NULL, or a lookup that may find nothing. */
module Wrappers {
  datatype Option<+T> = None | Some(value: T)
}
