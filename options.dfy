/** An optional value: the model's stand-in for Rust's `Option` and for `Result<T, ()>`. */
module Options {

  datatype Option<+T> = None | Some(value: T)
}
