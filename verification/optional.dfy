/** Python's `None`-or-value, and the result of an operation that can raise. */
module Optional {
  datatype Option<T> = None | Some(value: T)
}
