/** The optional value used wherever the C# code tests a reference for null. */
module Wrappers {
  datatype Option<+T> = None | Some(value: T)
}
