/** Optional values, used for the parsers and for a capture that may fail. */
module Options {

  datatype Option<+T> = None | Some(value: T)

}
