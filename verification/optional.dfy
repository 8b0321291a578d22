/** PHP's nullable values: `null` is None, any other value is Some. */
module Optional {

  datatype Option<+T> = None | Some(value: T)
}
