/** The optional value used for an absent range and an unset offset cache. */
module Wrappers {
  datatype Option<+T> = None | Some(value: T)
}
