/** The optional value used wherever the source yields `undefined`/`null` or
    a callback that is never invoked. */
module Wrappers {
  datatype Option<+T> = None | Some(value: T)
}
