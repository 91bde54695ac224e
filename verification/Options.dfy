/** Optional values: Go's nil-able pointers and missing rows. */
module Options {

  datatype Option<+T> = None | Some(value: T)
}
