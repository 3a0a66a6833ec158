/** The optional value used for the JSON members an event may lack. */
module Wrappers {
  datatype Option<+T> = None | Some(value: T)
}
