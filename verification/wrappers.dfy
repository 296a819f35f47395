/** The optional value that the source expresses with a null pointer or a null array. */
module Wrappers {

  datatype Option<+T> = None | Some(value: T)
}
