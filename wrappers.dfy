/** The absence indicator used where the C++ code hands back a null pointer. */
module Wrappers {

  datatype Option<+T> = None | Some(value: T)
}
