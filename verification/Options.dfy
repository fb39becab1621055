/** The conventional optional value, used wherever the source returns None or null. */
module Options {
  datatype Option<+T> = None | Some(value: T)
}
