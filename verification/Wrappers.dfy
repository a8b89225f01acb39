/** Outcomes of operations that may throw or find nothing. */
module Wrappers {

  datatype Option<+T> = None | Some(value: T)
}
