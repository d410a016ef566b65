/** The optional value used throughout: a missing page, task, chunk or record is None. */
module Options {
  datatype Option<+T> = None | Some(value: T)
}
