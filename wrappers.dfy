/** The failure-carrying result used where the source would throw. */
module Wrappers {

  datatype Option<+T> = None | Some(value: T)
}
