/** The optional value used for a pending coroutine and for a ray cast that may miss. */
module Wrappers {
  datatype Option<+T> = None | Some(value: T)
}
