/**
 A value that may be missing: what is `undefined` in JavaScript, or a result that is `null`, or a member of a
 record that is not there at all.
 */
module Options {
  datatype Option<+T> = None | Some(value: T)
}
