/** The optional value used for JavaScript's optional parameters and fields. */
module Wrappers {

  datatype Option<+T> = None | Some(value: T)
}
