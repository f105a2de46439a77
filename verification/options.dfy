/** The optional value that the source gets from Rust's `Option` and from
    parse results whose error it only logs. */
module Options {
  datatype Option<+T> = None | Some(value: T)
}
