/** The optional-value datatype shared by the other modules (Rust's `Option` and the
    `Ok`/`Err` of a parse whose error value the program never inspects). */
module Wrappers {
  datatype Option<+T> = None | Some(value: T)
}
