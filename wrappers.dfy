/** The Option datatype used for the parser's single "no section" outcome. */
module Wrappers {
  datatype Option<+T> = None | Some(value: T)
}
