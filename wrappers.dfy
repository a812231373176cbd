/** The optional value that the installer's helper functions return in place of Python's None. */
module Wrappers {

  datatype Option<+T> = None | Some(value: T)
}
