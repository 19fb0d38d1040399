/** The optional value used wherever the program has a Swift optional. */
module Wrappers {

  datatype Option<+T> = None | Some(value: T)
}
