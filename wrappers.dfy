/** The optional value used for `Option<T>` in the source (peeked characters, the previous token). */
module Wrappers {

  datatype Option<+T> = None | Some(value: T)
}
