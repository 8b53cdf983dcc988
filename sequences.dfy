/** Order-keeping selection, shared by the table filters and by the
    column check. */
module Sequences {
  /** `a` occurs in `b` with its order kept: `a` is what a filter can leave of `b`. */
  predicate Subsequence<T(==)>(a: seq<T>, b: seq<T>)
  {
    if a == [] then true
    else if b == [] then false
    else if a[0] == b[0] then Subsequence(a[1..], b[1..])
    else Subsequence(a, b[1..])
  }
}
