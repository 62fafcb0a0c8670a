/** The usual optional value, used for reads that may fail and for parsers. */
module Wrappers {

  datatype Option<+T> = None | Some(value: T)
}
