/** The optional result that stands for a possibly-null pointer in the original code. */
module Wrappers {

  datatype Option<+T> = None | Some(value: T)
}
