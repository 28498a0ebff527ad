/** The optional value used for a NULL pointer argument and for a one-byte pushback slot. */
module Wrappers {

  datatype Option<+T> = None | Some(value: T)
}
