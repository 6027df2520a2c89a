/** What a lookup or a call that may fail returns. */
module Wrappers {
  datatype Option<+T> = None | Some(value: T)
}
