/** A value that may be missing: JavaScript's `null` beside a real value. */
module Maybe {
  datatype Option<+T> = None | Some(value: T)
}
