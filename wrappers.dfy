/** The optional value used wherever the Swift code has `T?`. */
module Wrappers {
  datatype Option<+T> = None | Some(value: T)
}
