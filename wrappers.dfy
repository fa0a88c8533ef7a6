/** The optional value used for the source's nullable header pointers and for parse results. */
module Wrappers {
  datatype Option<+T> = None | Some(value: T)
}
