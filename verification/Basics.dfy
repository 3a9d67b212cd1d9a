/** Small value types shared by every other module. */
module Basics {
  datatype Option<+T> = None | Some(value: T)

  datatype Result<+T, +E> = Ok(value: T) | Err(error: E)

  type byte = b: int | 0 <= b < 256

  /** A non-empty set has an element to pick, whatever order a Go `range` would visit it in. */
  lemma SomeElement<T>(s: set<T>) returns (x: T)
    requires s != {}
    ensures x in s
  {
    x :| x in s;
  }

  function Max(a: int, b: int): int {
    if a < b then b else a
  }
}
