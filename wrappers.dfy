/** The optional value used for the scanner's pending region start and its selected tag. */
module Wrappers {

  datatype Option<+T> = None | Some(value: T)
}
