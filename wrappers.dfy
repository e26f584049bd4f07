/** Failure-compatible wrappers and a sequence fact shared by the other modules. */
module Wrappers {

  datatype Option<+T> = None | Some(value: T)

  datatype Result<+R, +E> = Success(value: R) | Failure(error: E)

  /** Octets, as JavaScript holds them in plain arrays of small integers. */
  type byte = x: int | 0 <= x < 256

  /** Sequence concatenation is associative; stated once for the solver, which does not regroup on its own. */
  lemma ConcatAssoc<T>(a: seq<T>, b: seq<T>, c: seq<T>)
    ensures (a + b) + c == a + (b + c)
  {
  }
}
