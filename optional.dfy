/** The Go `nil`-or-value convention, as an explicit option. */
module Optional {

  datatype Option<+T> = None | Some(value: T)
}
