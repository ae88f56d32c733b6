/** The optional value used wherever the Go code has a nil pointer or a nil error. */
module Wrappers {
  datatype Option<+T> = None | Some(value: T)
}
