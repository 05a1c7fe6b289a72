/** Small option type for values that may be unset. */
module Options {
  datatype Option<+T> = None | Some(value: T)
}
