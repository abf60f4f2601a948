/** The optional value used for inputs that may be missing (a file that cannot be opened). */
module Wrappers {
  datatype Option<+T> = None | Some(value: T)
}
