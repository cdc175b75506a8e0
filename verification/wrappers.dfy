/** Option, the stand-in for a C# null, shared by the other modules. */
module Wrappers {

  /** A value that may be absent: the model's stand-in for a C# null reference. */
  datatype Option<+T> = None | Some(value: T)
}
