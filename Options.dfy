/** An optional value: `None` stands for Python's `None` or a missing key. */
module Options {
  datatype Option<T> = None | Some(value: T)
}
