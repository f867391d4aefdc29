/** Values that may be absent (JavaScript's null and undefined), and the set of a sequence's elements. */
module Wrappers {
  datatype Option<+T> = None | Some(value: T)

  function SetOf<T>(xs: seq<T>): set<T> {
    set x | x in xs
  }
}
