/** The optional value used for grid cells, clearance masks and matcher lists. */
module Options {
  datatype Option<+T> = None | Some(value: T)
}
