/** The usual optional-value datatype, used for Python names that may be unbound and for calls that may raise. */
module Wrappers {
  datatype Option<+T> = None | Some(value: T)
}
