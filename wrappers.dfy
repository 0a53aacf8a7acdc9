/** The optional value used wherever the Java code returns null or skips. */
module Wrappers {
  datatype Option<+T> = None | Some(value: T)
}
