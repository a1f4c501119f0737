/** The usual optional value: a C null pointer becomes `None`. */
module Options {
  datatype Option<+T> = None | Some(value: T)
}
