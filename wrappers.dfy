/** The optional-value datatype used where the source returns `None`. */
module Wrappers {

  datatype Option<+T> = None | Some(value: T)
}
