/** The optional-value datatype used for parses that may fail and for oracle answers. */
module Wrappers {

  datatype Option<+T> = None | Some(value: T)
}
