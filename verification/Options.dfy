/** The null of a pointer, and the empty result of an operation that may fail. */
module Options {
  datatype Option<+T> = None | Some(value: T)
}
