/** The optional value used for the parts of a command that may be absent. */
module Wrappers {

  datatype Option<+T> = None | Some(value: T)
}
