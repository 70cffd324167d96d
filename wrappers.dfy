/** The optional value used wherever the program either has something or falls back. */
module Wrappers {

  datatype Option<+T> = None | Some(value: T)
}
