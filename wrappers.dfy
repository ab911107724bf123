/** The optional-value datatype used where the source passes `None` or a nullable cell. */
module Wrappers {
  datatype Option<+T> = None | Some(value: T)
}
