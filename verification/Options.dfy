/** The optional value used where the source returns or stores an optional one. */
module Options {
  datatype Option<+T> = None | Some(value: T)
}
