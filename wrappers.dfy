/** Option, used where the source either produces a value or silently skips. */
module Wrappers {

  datatype Option<+T> = None | Some(value: T)

}
