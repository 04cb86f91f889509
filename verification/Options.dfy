/** Values that may be absent: Rust's `Option`. */
module Options {
  datatype Option<+T> = None | Some(value: T)
}
