/** Option, for Python operations that either give a value or raise. */
module Wrappers {

  datatype Option<+T> = None | Some(value: T)
}
