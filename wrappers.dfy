/** The optional value used where the source either yields a string or fails. */
module Wrappers {
  datatype Option<+T> = None | Some(value: T)
}
