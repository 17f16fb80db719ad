/** The optional value used wherever the C code works with a pointer that may be NULL. */
module Wrappers {
  datatype Option<+T> = None | Some(value: T)
}
