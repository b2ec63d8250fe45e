/** An optional value, used where the source has `null` or a missing result. */
module Options {

  datatype Option<+T> = None | Some(value: T)
}
