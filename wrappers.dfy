/** The failure-carrying result used where the source has undefined behaviour
    or an error outcome. */
module Wrappers {
  datatype Option<+T> = None | Some(value: T)
}
