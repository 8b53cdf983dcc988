/** Numeric summaries of a column of present values: sum, mean, extremes and
    the quantile with linear interpolation that pandas' `Series.quantile`
    computes by default. */
module Statistics {
  import opened Wrappers
  import opened Ranking

  function Sum(xs: seq<real>): real
  {
    if xs == [] then 0.0 else xs[0] + Sum(xs[1..])
  }

  function MinOf(xs: seq<real>): (r: real)
    requires |xs| > 0
    ensures r in xs && forall x :: x in xs ==> r <= x
  {
    if |xs| == 1 then xs[0]
    else
      var m := MinOf(xs[1..]);
      assert forall x :: x in xs ==> x == xs[0] || x in xs[1..];
      if xs[0] <= m then xs[0] else m
  }

  function MaxOf(xs: seq<real>): (r: real)
    requires |xs| > 0
    ensures r in xs && forall x :: x in xs ==> x <= r
  {
    if |xs| == 1 then xs[0]
    else
      var m := MaxOf(xs[1..]);
      assert forall x :: x in xs ==> x == xs[0] || x in xs[1..];
      if xs[0] >= m then xs[0] else m
  }

  lemma {:induction false} SumBounds(xs: seq<real>, lo: real, hi: real)
    requires forall x :: x in xs ==> lo <= x <= hi
    ensures |xs| as real * lo <= Sum(xs) <= |xs| as real * hi
  {
    if xs != [] {
      assert xs[0] in xs;
      assert forall x :: x in xs[1..] ==> x in xs;
      SumBounds(xs[1..], lo, hi);
      var n := |xs[1..]| as real;
      assert |xs| as real == n + 1.0;
      Distribute(n, lo);
      Distribute(n, hi);
      assert Sum(xs) == xs[0] + Sum(xs[1..]);
    }
  }

  lemma Distribute(k: real, c: real)
    ensures (k + 1.0) * c == c + k * c
  {
  }

  /** Arithmetic mean of the present values (pandas' `mean`). */
  function Average(xs: seq<real>): (r: real)
    requires |xs| > 0
    ensures MinOf(xs) <= r <= MaxOf(xs)
  {
    SumBounds(xs, MinOf(xs), MaxOf(xs));
    DivideBounds(Sum(xs), |xs| as real, MinOf(xs), MaxOf(xs));
    Sum(xs) / |xs| as real
  }

  lemma DivideBounds(s: real, n: real, lo: real, hi: real)
    requires n > 0.0 && n * lo <= s <= n * hi
    ensures lo <= s / n <= hi
  {
    var a := s / n;
    assert a * n == s;
    assert (a - lo) * n >= 0.0;
    assert (hi - a) * n >= 0.0;
  }

  lemma ScaleBounds(f: real, d: real)
    requires 0.0 <= f <= 1.0 && 0.0 <= d
    ensures 0.0 <= f * d <= d
  {
    assert d - f * d == (1.0 - f) * d;
  }

  function RealKey(x: real): Option<real>
  {
    Some(x)
  }

  ghost predicate Ascending(xs: seq<real>)
  {
    forall i, j :: 0 <= i < j < |xs| ==> xs[i] <= xs[j]
  }

  function SortReals(xs: seq<real>): (r: seq<real>)
    ensures multiset(r) == multiset(xs) && |r| == |xs|
    ensures Ascending(r)
  {
    var r := SortByKey(xs, RealKey, true);
    assert forall i, j :: 0 <= i < j < |r| ==> !Precedes(RealKey(r[j]), RealKey(r[i]), true);
    r
  }

  /** Two ascending arrangements of the same values are the same sequence. */
  lemma {:induction false} AscendingUnique(a: seq<real>, b: seq<real>)
    requires Ascending(a) && Ascending(b) && multiset(a) == multiset(b)
    ensures a == b
  {
    if a != [] {
      assert |b| == |multiset(b)| == |a|;
      AscendingSameHead(a, b);
      AscendingSameHead(b, a);
      DropSameHead(a, b);
      AscendingTail(a);
      AscendingTail(b);
      AscendingUnique(a[1..], b[1..]);
      assert a == [a[0]] + a[1..] && b == [b[0]] + b[1..];
    }
  }

  lemma DropSameHead(a: seq<real>, b: seq<real>)
    requires a != [] && b != [] && a[0] == b[0] && multiset(a) == multiset(b)
    ensures multiset(a[1..]) == multiset(b[1..])
  {
    assert a == [a[0]] + a[1..] && b == [b[0]] + b[1..];
    assert multiset(a[1..]) == multiset(a) - multiset{a[0]};
    assert multiset(b[1..]) == multiset(b) - multiset{b[0]};
  }

  lemma AscendingTail(a: seq<real>)
    requires Ascending(a) && a != []
    ensures Ascending(a[1..])
  {
    forall i, j | 0 <= i < j < |a| - 1 ensures a[1..][i] <= a[1..][j] {
      assert a[1..][i] == a[i + 1] && a[1..][j] == a[j + 1];
    }
  }

  lemma AscendingSameHead(a: seq<real>, b: seq<real>)
    requires Ascending(a) && a != [] && |b| == |a| && multiset(a) == multiset(b)
    ensures a[0] <= b[0]
  {
    assert b[0] in multiset(b);
    var j :| 0 <= j < |a| && a[j] == b[0];
    assert a[0] <= a[j];
  }

  /** The point at fraction `f` of the way from `a` to `b`. */
  function Lerp(a: real, b: real, f: real): (r: real)
    requires a <= b && 0.0 <= f <= 1.0
    ensures a <= r <= b
    ensures f == 0.0 ==> r == a
  {
    var d := f * (b - a);
    ScaleBounds(f, b - a);
    assert 0.0 <= d <= b - a;
    assert f == 0.0 ==> d == 0.0;
    a + d
  }

  /** The fractional position (n-1)q of the quantile among n values. */
  lemma PositionBounds(m: nat, q: real)
    requires 0.0 <= q <= 1.0
    ensures 0.0 <= m as real * q <= m as real
    ensures q == 0.0 ==> m as real * q == 0.0
    ensures q == 1.0 ==> m as real * q == m as real
  {
    ScaleBounds(q, m as real);
  }

  /** The position of the lower neighbour in numpy's linear quantile of `n`
      values: the whole part of (n-1)q. */
  function Rank(n: nat, q: real): (i: nat)
    requires n > 0 && 0.0 <= q <= 1.0
    ensures i < n
    ensures i as real <= (n - 1) as real * q < i as real + 1.0
  {
    PositionBounds(n - 1, q);
    ((n - 1) as real * q).Floor
  }

  /** The position of the upper neighbour: the next one, or the last. */
  function UpperRank(n: nat, q: real): (j: nat)
    requires n > 0 && 0.0 <= q <= 1.0
    ensures Rank(n, q) <= j < n
    ensures j == Rank(n, q) || j == Rank(n, q) + 1
    ensures Rank(n, q) + 1 < n ==> j == Rank(n, q) + 1
  {
    if Rank(n, q) + 1 < n then Rank(n, q) + 1 else Rank(n, q)
  }

  /** numpy's "linear" quantile of ascending values: position h = (n-1)q,
      interpolating between the values at positions floor(h) and floor(h)+1. */
  function Interpolate(xs: seq<real>, q: real): (r: real)
    requires |xs| > 0 && 0.0 <= q <= 1.0 && Ascending(xs)
    ensures xs[Rank(|xs|, q)] <= r <= xs[UpperRank(|xs|, q)]
    ensures xs[0] <= r <= xs[|xs| - 1]
    ensures q == 0.0 ==> r == xs[0]
    ensures q == 1.0 ==> r == xs[|xs| - 1]
  {
    var h := (|xs| - 1) as real * q;
    PositionBounds(|xs| - 1, q);
    var i := Rank(|xs|, q);
    if i + 1 < |xs| then
      assert xs[0] <= xs[i] && xs[i + 1] <= xs[|xs| - 1];
      Lerp(xs[i], xs[i + 1], h - i as real)
    else
      xs[i]
  }

  /** `Series.quantile(q)` over the present values: between the values of
      ranks floor((n-1)q) and the next one, and so within their range. */
  function Quantile(xs: seq<real>, q: real): (r: real)
    requires |xs| > 0 && 0.0 <= q <= 1.0
    ensures SortReals(xs)[Rank(|xs|, q)] <= r <= SortReals(xs)[UpperRank(|xs|, q)]
    ensures MinOf(xs) <= r <= MaxOf(xs)
  {
    var sorted := SortReals(xs);
    SortedEnds(xs, sorted);
    Interpolate(sorted, q)
  }

  /** How many of the values are at most `t`. */
  function CountAtMost(xs: seq<real>, t: real): nat
  {
    if xs == [] then 0 else (if xs[0] <= t then 1 else 0) + CountAtMost(xs[1..], t)
  }

  lemma {:induction false} CountAtMostConcat(a: seq<real>, b: seq<real>, t: real)
    ensures CountAtMost(a + b, t) == CountAtMost(a, t) + CountAtMost(b, t)
  {
    if a == [] {
      assert a + b == b;
    } else {
      assert (a + b)[0] == a[0] && (a + b)[1..] == a[1..] + b;
      CountAtMostConcat(a[1..], b, t);
    }
  }

  /** The count depends only on which values there are, not on their order. */
  lemma {:induction false} CountAtMostPermutation(xs: seq<real>, ys: seq<real>, t: real)
    requires multiset(xs) == multiset(ys)
    ensures CountAtMost(xs, t) == CountAtMost(ys, t)
    decreases |xs|
  {
    if xs != [] {
      var x := xs[0];
      assert x in multiset(ys);
      var j :| 0 <= j < |ys| && ys[j] == x;
      var rest := ys[..j] + ys[j + 1..];
      RemoveAt(ys, j, t);
      assert xs == [x] + xs[1..];
      assert multiset(xs[1..]) == multiset(xs) - multiset{x};
      CountAtMostPermutation(xs[1..], rest, t);
    }
  }

  /** Taking out the value at position j takes out one copy and its count. */
  lemma RemoveAt(ys: seq<real>, j: nat, t: real)
    requires j < |ys|
    ensures multiset(ys[..j] + ys[j + 1..]) == multiset(ys) - multiset{ys[j]}
    ensures CountAtMost(ys, t) == (if ys[j] <= t then 1 else 0) + CountAtMost(ys[..j] + ys[j + 1..], t)
  {
    assert ys == ys[..j] + ([ys[j]] + ys[j + 1..]);
    assert multiset(ys) == multiset(ys[..j]) + multiset([ys[j]]) + multiset(ys[j + 1..]);
    CountAtMostConcat(ys[..j], [ys[j]] + ys[j + 1..], t);
    CountAtMostConcat([ys[j]], ys[j + 1..], t);
    CountAtMostConcat(ys[..j], ys[j + 1..], t);
  }

  /** In ascending values, a value at most `t` at position k has the k values
      before it at most `t` as well. */
  lemma {:induction false} AscendingCountAtMost(xs: seq<real>, k: nat, t: real)
    requires Ascending(xs) && k < |xs| && xs[k] <= t
    ensures CountAtMost(xs, t) >= k + 1
  {
    assert xs[0] <= xs[k];
    if k > 0 {
      AscendingTail(xs);
      assert xs[1..][k - 1] == xs[k];
      AscendingCountAtMost(xs[1..], k - 1, t);
    }
  }

  /** The ends of the ascending arrangement are the extremes. */
  lemma SortedEnds(xs: seq<real>, sorted: seq<real>)
    requires |xs| > 0 && multiset(sorted) == multiset(xs) && |sorted| == |xs| && Ascending(sorted)
    ensures sorted[0] == MinOf(xs) && sorted[|sorted| - 1] == MaxOf(xs)
  {
    var lo, hi := MinOf(xs), MaxOf(xs);
    assert lo in multiset(sorted) && hi in multiset(sorted);
    var i :| 0 <= i < |sorted| && sorted[i] == lo;
    var j :| 0 <= j < |sorted| && sorted[j] == hi;
    assert sorted[0] in multiset(xs) && sorted[|sorted| - 1] in multiset(xs);
    assert sorted[0] in xs && sorted[|sorted| - 1] in xs;
  }

  /** The quantile does not depend on the order of the values. */
  lemma QuantilePermutation(xs: seq<real>, ys: seq<real>, q: real)
    requires |xs| > 0 && 0.0 <= q <= 1.0
    requires multiset(xs) == multiset(ys)
    ensures |ys| > 0 && Quantile(xs, q) == Quantile(ys, q)
  {
    assert |ys| == |multiset(ys)| == |xs|;
    AscendingUnique(SortReals(xs), SortReals(ys));
  }
}
