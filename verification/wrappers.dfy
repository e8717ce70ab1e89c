/** The optional-value datatype used throughout the model for absent fields,
    missing keys and the handler's not-found outcome. */
module Wrappers {

  datatype Option<+T> = None | Some(value: T)
}
