/** Optional values, used wherever the source returns a nil pointer, a
    missing map entry or a failed parse. */
module Wrappers {

  datatype Option<+T> = None | Some(value: T)
}
