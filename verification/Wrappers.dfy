/** Result shapes and small notions shared by the other modules. */
module Wrappers {

  /** A value that may be absent: the source's `None`. */
  datatype Option<+T> = None | Some(value: T)

  /** A returned value, or the error a Python function raises instead. */
  datatype Result<+T, +E> = Ok(value: T) | Err(error: E)

  function Max(a: int, b: int): int {
    if a < b then b else a
  }

  /** No element occurs twice. */
  predicate Distinct<T(==)>(s: seq<T>) {
    forall i, j | 0 <= i < j < |s| :: s[i] != s[j]
  }
}
