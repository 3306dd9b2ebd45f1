/** The optional-value datatype used for every decoder that can reject its input. */
module Wrappers {

  datatype Option<+T> = None | Some(value: T)
}
