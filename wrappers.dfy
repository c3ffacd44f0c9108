/** The optional value used for every read that can come up short. */
module Wrappers {

  datatype Option<+T> = None | Some(value: T)
}
