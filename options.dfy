/** The optional-value type used for Rust's `Option<T>` results. */
module Options {
  datatype Option<T> = None | Some(value: T)
}
