/** The optional value used where the source has `None` (no zombie, or a value that cannot be built). */
module Options {
  datatype Option<+T> = None | Some(value: T)
}
