/** A value that may be missing: `undefined`, `null`, an absent map entry or
    a failed parse. */
module Optional {
  datatype Option<+T> = None | Some(value: T)
}
