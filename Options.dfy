/** An optional value: a JavaScript field or return value that may be `undefined`. */
module Options {

  datatype Option<+T> = None | Some(value: T)
}
