/** The optional value and the byte type shared by the modules of this project. */
module Wrappers {

  datatype Option<T> = None | Some(value: T)

  /** An unsigned 8-bit C integer. */
  type uint8 = x: int | 0 <= x < 256
}
