/** The optional value all modules share. */
module Wrappers {
  datatype Option<+T> = None | Some(value: T)
}
