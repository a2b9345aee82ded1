/** A value that may be absent: pandas' NaN cells and failed requests. */
module Options {
  datatype Option<+T> = None | Some(value: T)
}
