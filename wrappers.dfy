/** The optional value used where the program stores `None` before a first assignment. */
module Wrappers {

  datatype Option<+T> = None | Some(value: T)
}
