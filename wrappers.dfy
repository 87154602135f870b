/** The optional value used for end of input and for SQL NULL. */
module Wrappers {

  datatype Option<+T> = None | Some(value: T)
}
