/** A value that may be missing, as the program's own optional type. */
module Options {
  datatype Option<+T> = None | Some(value: T)
}
