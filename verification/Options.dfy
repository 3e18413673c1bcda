/** A value or nothing: the code's null pointers. */
module Options {
  datatype Option<+T> = None | Some(value: T)
}
