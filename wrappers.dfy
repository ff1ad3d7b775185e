/** A value that may be absent: JavaScript's `undefined` (or a missing property). */
module Wrappers {

  datatype Option<+T> = None | Some(value: T)
}
