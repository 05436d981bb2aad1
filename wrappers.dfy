/** The optional value used wherever the source passes or returns a possibly-null reference. */
module Wrappers {
  datatype Option<+T> = None | Some(value: T)
}
