/** The optional value used where the Objective-C code answers nil. */
module Wrappers {

  datatype Option<+T> = None | Some(value: T)
}
