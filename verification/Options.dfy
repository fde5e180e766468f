/** The optional values used by every other module. */
module Options {
  datatype Option<+T> = None | Some(value: T)
}
