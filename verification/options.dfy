/** The optional value used for NULL pointers and for "no tree". */
module Options {
  datatype Option<T> = None | Some(value: T)
}
