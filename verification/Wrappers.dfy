/** What several models share: the optional value, a pointer that may be null, and a maximum. */
module Wrappers {
  datatype Option<+T> = None | Some(value: T)

  function Max(a: int, b: int): (m: int)
    ensures m >= a && m >= b
  {
    if a < b then b else a
  }
}
