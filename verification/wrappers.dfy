/** The optional value used where the script returns Python's `None`. */
module Wrappers {

  datatype Option<+T> = None | Some(value: T)

}
