/** The optional-value datatype used where the source has a nullable value. */
module Wrappers {
  datatype Option<+T> = None | Some(value: T)
}
