/** The conventional Some/None datatype, used for NULL pointers and for values that may be absent. */
module Options {
  datatype Option<+T> = None | Some(value: T)
}
