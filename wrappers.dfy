/** The optional value that the C code expresses with a NULL pointer. */
module Wrappers {

  datatype Option<+T> = None | Some(value: T)
}
