/** An optional value: a configuration key or an object attribute that may be absent. */
module Optional {

  datatype Option<+T> = None | Some(value: T)
}
