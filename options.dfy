/** A value that may be missing: an absent document field, a JSON `null`,
    or an `undefined` request parameter. */
module Options {
  datatype Option<+T> = None | Some(value: T)
}
