/** The optional value returned by rules and string searches (Rust's `Option`). */
module Wrappers {

  datatype Option<+T> = None | Some(value: T)
}
