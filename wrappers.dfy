/** Failure-carrying values shared by the other modules: a missing value and
    a Python exception raised instead of a result. */
module Wrappers {

  datatype Option<+T> = None | Some(value: T)

  datatype Result<+T, +E> = Ok(value: T) | Err(error: E)

  /** numpy's `arange(lo, hi)`: the integers lo, lo + 1, ..., hi - 1. */
  function Arange(lo: int, hi: int): (r: seq<int>)
    ensures |r| == if lo <= hi then hi - lo else 0
    ensures forall i :: 0 <= i < |r| ==> r[i] == lo + i
  {
    if lo < hi then seq(hi - lo, i => lo + i) else []
  }
}
