/** The usual sum type for a C pointer that may be NULL. */
module Options {
  datatype Option<+T> = None | Some(value: T)
}
