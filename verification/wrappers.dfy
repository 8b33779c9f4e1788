/** The Some/None datatype used by the read-back functions of this model. */
module Wrappers {

  datatype Option<+T> = None | Some(value: T)
}
