/** An optional value: None where a step is not enabled. */
module Wrappers {
  datatype Option<T> = None | Some(value: T)
}
