/** The optional value that Rust's `Option` stands for throughout the model. */
module Options {
  datatype Option<+T> = None | Some(value: T)
}
