/** The optional-value datatype used for "a reading, or nothing". */
module Wrappers {

  datatype Option<+T> = None | Some(value: T)
}
