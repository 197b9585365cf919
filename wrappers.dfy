/** The optional value used wherever JavaScript answers "no value". */
module Wrappers {

  datatype Option<+T> = None | Some(value: T)
}
