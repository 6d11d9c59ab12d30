/** The optional value used where the analyzer returns `None`. */
module Wrappers {

  datatype Option<+T> = None | Some(value: T)
}
