/** The optional value the calculator returns when a stack does not reduce. */
module Wrappers {

  datatype Option<+T> = None | Some(value: T)
}
