/** The optional value the generated router code threads through every step:
    `None` is Rust's `None`, the "this route does not answer" signal. */
module Wrappers {

  datatype Option<+T> = None | Some(value: T)
}
