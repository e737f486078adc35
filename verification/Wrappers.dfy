/** The optional value used throughout: the Rust `Option`. */
module Wrappers {
  datatype Option<+T> = None | Some(value: T)
}
