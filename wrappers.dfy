/** The optional value used for settings and lookups that may be absent. */
module Wrappers {

  datatype Option<+T> = None | Some(value: T)
}
