/** A value that may be absent: JavaScript's `undefined` next to a defined value. */
module Optional {

  datatype Option<+T> = None | Some(value: T)

}
