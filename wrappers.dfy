/** The optional-value datatype the command results use. */
module Wrappers {

  datatype Option<+T> = None | Some(value: T)
}
