/** The conventional optional value, used where the reader either has a value or has none. */
module Wrappers {
  datatype Option<+T> = None | Some(value: T)
}
