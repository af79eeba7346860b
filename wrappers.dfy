/** The optional value used across the model for C functions that return NULL on failure. */
module Wrappers {

  datatype Option<+T> = None | Some(value: T)
}
