/** The optional value used for a tree pointer that may be null. */
module Wrappers {

  datatype Option<+T> = None | Some(value: T)
}
