/** An optional value, for results the source signals with `false`. */
module Optional {

  datatype Option<+T> = None | Some(value: T)
}
