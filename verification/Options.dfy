/** The optional value used wherever the program returns an `Option`. */
module Options {
  datatype Option<+T> = None | Some(value: T)
}
