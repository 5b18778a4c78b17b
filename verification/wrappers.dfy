/** A reference that may be null in the modelled C# code becomes an Option. */
module Wrappers {

  datatype Option<+T> = None | Some(value: T)
}
