/** The optional value used where a reading can fail. */
module Wrappers {
  datatype Option<+T> = None | Some(value: T)
}
