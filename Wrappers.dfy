/** The optional value the decoder uses for a score that may be absent. */
module Wrappers {
  datatype Option<+T> = None | Some(value: T)
}
