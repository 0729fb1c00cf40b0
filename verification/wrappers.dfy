/** The optional value used wherever an operation of the app can fail or is not enabled. */
module Wrappers {

  datatype Option<+T> = None | Some(value: T)

}
