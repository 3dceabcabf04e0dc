/** Small helper datatypes shared by the other modules. */
module Wrappers {

  /** The conventional optional value. */
  datatype Option<+T> = None | Some(value: T)
}
