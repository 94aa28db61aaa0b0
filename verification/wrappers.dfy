/** The optional value used where the source returns `undefined`. */
module Wrappers {
  datatype Option<+T> = None | Some(value: T)
}
