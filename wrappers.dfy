/** The optional-value datatype used where a Swift operation can trap. */
module Wrappers {

  datatype Option<+T> = None | Some(value: T)
}
