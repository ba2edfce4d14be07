/** A value that may be absent: JavaScript's `undefined`/`null` and optional record fields. */
module Wrappers {

  datatype Option<+T> = None | Some(value: T)

}
