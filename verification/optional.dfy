/** An optional value, for results that may be absent (a parse that fails, a search that finds nothing). */
module Optional {

  datatype Option<+T> = None | Some(value: T)
}
