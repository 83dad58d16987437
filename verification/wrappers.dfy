/** Optional values, used where the host has `undefined` / `null` or a
    call may produce nothing. */
module Wrappers {

  datatype Option<+T> = None | Some(value: T)
}
