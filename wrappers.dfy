/** The optional value used for the engine's "returns None / returns 0" paths. */
module Wrappers {
  datatype Option<+T> = None | Some(value: T)
}
