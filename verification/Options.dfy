module Options {
  /** A value that may be absent: Go's nil pointers and `value, ok` pairs. */
  datatype Option<+T> = None | Some(value: T)
}
