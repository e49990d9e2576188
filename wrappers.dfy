/** The optional value used for Rust's `Option` and for the results of parsing. */
module Wrappers {

  datatype Option<+T> = None | Some(value: T)
}
