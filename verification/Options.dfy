/** The optional values the program writes as `T | None`. */
module Options {
  datatype Option<+T> = None | Some(value: T)
}
