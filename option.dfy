/** The optional value used for an unset header value and for "no preferred candidate". */
module Wrappers {
  datatype Option<+T> = None | Some(value: T)
}
