/** The optional-value datatype used for a conversion that may fail. */
module Wrappers {

  datatype Option<+T> = None | Some(value: T)
}
