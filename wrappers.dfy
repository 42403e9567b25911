/** The optional value used where the server reads something that may be missing. */
module Wrappers {

  datatype Option<+T> = None | Some(value: T)
}
