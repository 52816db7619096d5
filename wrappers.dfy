/** The optional value used wherever the Java code returns null or throws on bad input. */
module Wrappers {

  datatype Option<+T> = None | Some(value: T)
}
