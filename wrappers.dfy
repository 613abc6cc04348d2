/** A nullable Java reference (`Integer`, `String`, `Boolean`, `List`) is an Option. */
module Wrappers {

  datatype Option<+T> = None | Some(value: T)
}
