/** A value that may be absent: Python's `None` next to a value of another type. */
module Optional {
  datatype Option<+T> = None | Some(value: T)
}
