/** Order-preserving selection from a sequence. */
module Sequences {

  /** `a` is obtained from `b` by deleting elements, keeping the order of
      the rest. */
  predicate IsSubsequence<T(==)>(a: seq<T>, b: seq<T>)
    decreases |b|
  {
    if |a| == 0 then true
    else if |b| == 0 then false
    else (a[0] == b[0] && IsSubsequence(a[1..], b[1..])) || IsSubsequence(a, b[1..])
  }
}
