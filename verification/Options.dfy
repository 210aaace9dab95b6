/** A value or nothing, where the source uses NULL or an unset pointer. */
module Options {
  datatype Option<+T> = None | Some(value: T)
}
