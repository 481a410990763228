/** The optional value used wherever the source returns `null` or reads a missing entry. */
module Wrappers {

  datatype Option<+T> = None | Some(value: T)
}
