// An optional value, as a missing map entry, an empty slot or a nil result.
module Options {
  datatype Option<+T> = None | Some(value: T)
}
