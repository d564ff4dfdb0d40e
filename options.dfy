/** An optional value: the model's stand-in for Go's `(value, error)` and nil results. */
module Options {
  datatype Option<T> = None | Some(value: T)
}
