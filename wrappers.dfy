/** The "a value or nothing" result used for the derived filename. */
module Wrappers {

  datatype Option<+T> = None | Some(value: T)
}
