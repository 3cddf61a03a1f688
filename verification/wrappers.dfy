/** The optional value used for error results throughout the model. */
module Wrappers {

  datatype Option<+T> = None | Some(value: T)
}
