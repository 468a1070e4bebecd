/** The usual Some/None wrapper, used for parsers that may reject their input. */
module Wrappers {
  datatype Option<+T> = None | Some(value: T)
}
