/** The one datatype every part of the model shares. */
module Wrappers {
  /** A value that may be missing: an absent header, a failed call, an empty slot. */
  datatype Option<+T> = None | Some(value: T)
}
