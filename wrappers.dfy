/** Small helper datatypes shared by the game modules. */
module Wrappers {

  /** A value that may be absent, as JavaScript's `undefined`/`null` results. */
  datatype Option<+T> = None | Some(value: T)
}
