/** The optional value that every part of the model uses. */
module Wrappers {
  datatype Option<+T> = None | Some(value: T)
}
