/** The optional-value datatype used for lookups that may find nothing
    (a NULL pointer in the C source), and small shared helpers. */
module Wrappers {

  datatype Option<+T> = None | Some(value: T)

  function Min(a: int, b: int): int
  {
    if a <= b then a else b
  }

  /** `k` copies of `x`: repeated output lines, a buffer filled with one byte. */
  function Repeat<T>(x: T, k: nat): (r: seq<T>)
    ensures |r| == k && forall i :: 0 <= i < k ==> r[i] == x
  {
    seq(k, _ => x)
  }
}
