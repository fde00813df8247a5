/** The Some/None datatype that stands for C's null results. */
module Options {
  datatype Option<+T> = None | Some(value: T)
}
