/** The optional value used for results the source leaves undefined (NaN, a missing split). */
module Wrappers {

  datatype Option<+T> = None | Some(value: T)
}
