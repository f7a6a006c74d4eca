/** The optional-value datatype used for reads the input script cannot answer. */
module Wrappers {

  datatype Option<+T> = None | Some(value: T)
}
