/** Top-k views of a table ordered by a possibly-missing numeric key, as pandas'
    `nsmallest`/`nlargest` with `keep='first'` and `sort_values` produce them:
    rows are ordered by key, rows with equal keys keep their original relative
    order, and rows whose key is missing come last. */
module Ranking {
  import opened Wrappers
  import opened Districts

  /** Key `a` is placed strictly before key `b`: a present key before a missing
      one, present keys ascending (`asc`) or descending. */
  predicate Precedes(a: Option<real>, b: Option<real>, asc: bool)
  {
    a.Some? && (b.None? || (if asc then a.value < b.value else b.value < a.value))
  }

  ghost predicate SortedBy<T>(s: seq<T>, key: T -> Option<real>, asc: bool)
  {
    forall i, j :: 0 <= i < j < |s| ==> !Precedes(key(s[j]), key(s[i]), asc)
  }

  /** The elements of `s` whose key is `v`, in order. */
  function KeyFilter<T>(s: seq<T>, key: T -> Option<real>, v: Option<real>): (r: seq<T>)
    ensures |r| <= |s|
  {
    if s == [] then [] else (if key(s[0]) == v then [s[0]] else []) + KeyFilter(s[1..], key, v)
  }

  lemma {:induction false} KeyFilterPrefix<T>(s: seq<T>, n: nat, key: T -> Option<real>, v: Option<real>)
    requires n <= |s|
    ensures KeyFilter(s[..n], key, v) <= KeyFilter(s, key, v)
  {
    if n > 0 {
      assert s[..n][1..] == s[1..][..n - 1];
      KeyFilterPrefix(s[1..], n - 1, key, v);
    }
  }

  /** Places `x` after the elements whose key strictly precedes its own and
      before all others, so `x` comes first among the elements with its key. */
  function Insert<T>(x: T, s: seq<T>, key: T -> Option<real>, asc: bool): (r: seq<T>)
    ensures multiset(r) == multiset(s) + multiset{x}
    ensures |r| == |s| + 1
  {
    if s != [] && Precedes(key(s[0]), key(x), asc) then
      assert s == [s[0]] + s[1..];
      [s[0]] + Insert(x, s[1..], key, asc)
    else
      [x] + s
  }

  lemma {:induction false} KeyFilterConcat<T>(a: seq<T>, b: seq<T>, key: T -> Option<real>, v: Option<real>)
    ensures KeyFilter(a + b, key, v) == KeyFilter(a, key, v) + KeyFilter(b, key, v)
  {
    if a == [] {
      assert a + b == b;
    } else {
      assert (a + b)[0] == a[0] && (a + b)[1..] == a[1..] + b;
      KeyFilterConcat(a[1..], b, key, v);
    }
  }

  lemma KeyFilterSingleton<T>(x: T, key: T -> Option<real>, v: Option<real>)
    ensures KeyFilter([x], key, v) == if key(x) == v then [x] else []
  {
    assert [x][1..] == [];
  }

  lemma {:induction false} InsertKeyFilter<T>(x: T, s: seq<T>, key: T -> Option<real>, asc: bool, v: Option<real>)
    decreases |s|, 1
    ensures KeyFilter(Insert(x, s, key, asc), key, v) == KeyFilter([x], key, v) + KeyFilter(s, key, v)
  {
    if s != [] && Precedes(key(s[0]), key(x), asc) {
      InsertKeyFilterSkip(x, s, key, asc, v);
    } else {
      assert Insert(x, s, key, asc) == [x] + s;
      KeyFilterConcat([x], s, key, v);
    }
  }

  lemma InsertSkips<T>(x: T, s: seq<T>, key: T -> Option<real>, asc: bool)
    requires s != [] && Precedes(key(s[0]), key(x), asc)
    ensures Insert(x, s, key, asc) == [s[0]] + Insert(x, s[1..], key, asc)
    ensures s == [s[0]] + s[1..]
    ensures key(s[0]) != key(x)
  {
  }

  lemma {:induction false} InsertKeyFilterSkip<T>(x: T, s: seq<T>, key: T -> Option<real>, asc: bool, v: Option<real>)
    requires s != [] && Precedes(key(s[0]), key(x), asc)
    ensures KeyFilter(Insert(x, s, key, asc), key, v) == KeyFilter([x], key, v) + KeyFilter(s, key, v)
    decreases |s|, 0
  {
    var h, t := s[0], s[1..];
    var rest := Insert(x, t, key, asc);
    InsertSkips(x, s, key, asc);
    var a, xf, b := KeyFilter([h], key, v), KeyFilter([x], key, v), KeyFilter(t, key, v);
    InsertKeyFilter(x, t, key, asc, v);
    assert KeyFilter(rest, key, v) == xf + b;
    KeyFilterConcat([h], rest, key, v);
    KeyFilterConcat([h], t, key, v);
    KeyFilterSingleton(h, key, v);
    KeyFilterSingleton(x, key, v);
    assert a == [] || xf == [];
    SwapEmpty(a, xf, b);
  }

  lemma SwapEmpty<T>(a: seq<T>, x: seq<T>, b: seq<T>)
    requires a == [] || x == []
    ensures a + (x + b) == x + (a + b)
  {
  }

  /** After an element that precedes `x`, everything in the insertion of `x`
      into a sorted tail is placed no earlier than that element. */
  lemma InsertAfterHead<T>(x: T, s: seq<T>, key: T -> Option<real>, asc: bool)
    requires SortedBy(s, key, asc) && s != [] && Precedes(key(s[0]), key(x), asc)
    ensures forall y :: y in Insert(x, s[1..], key, asc) ==> !Precedes(key(y), key(s[0]), asc)
  {
    var rest := Insert(x, s[1..], key, asc);
    forall y | y in rest ensures !Precedes(key(y), key(s[0]), asc) {
      assert y in multiset(rest);
      if y != x {
        assert y in multiset(s[1..]);
        var k :| 0 <= k < |s[1..]| && s[1..][k] == y;
        assert s[k + 1] == y;
      }
    }
  }

  lemma {:induction false} InsertSorted<T>(x: T, s: seq<T>, key: T -> Option<real>, asc: bool)
    requires SortedBy(s, key, asc)
    ensures SortedBy(Insert(x, s, key, asc), key, asc)
  {
    if s != [] && Precedes(key(s[0]), key(x), asc) {
      assert SortedBy(s[1..], key, asc) by {
        assert forall i, j :: 0 <= i < j < |s| - 1 ==> s[1..][i] == s[i + 1] && s[1..][j] == s[j + 1];
      }
      InsertSorted(x, s[1..], key, asc);
      InsertAfterHead(x, s, key, asc);
      var rest := Insert(x, s[1..], key, asc);
      var r := [s[0]] + rest;
      forall i, j | 0 <= i < j < |r| ensures !Precedes(key(r[j]), key(r[i]), asc) {
        assert r[j] == rest[j - 1] && r[j] in rest;
        if i > 0 {
          assert r[i] == rest[i - 1];
        }
      }
    }
  }

  /** Stable sort by `key`, missing keys last. */
  function SortByKey<T>(s: seq<T>, key: T -> Option<real>, asc: bool): (r: seq<T>)
    ensures multiset(r) == multiset(s)
    ensures |r| == |s|
    ensures SortedBy(r, key, asc)
  {
    if s == [] then []
    else
      assert s == [s[0]] + s[1..];
      var t := SortByKey(s[1..], key, asc);
      InsertSorted(s[0], t, key, asc);
      Insert(s[0], t, key, asc)
  }

  /** Elements with equal keys keep their relative order. */
  lemma {:induction false} SortByKeyStable<T>(s: seq<T>, key: T -> Option<real>, asc: bool, v: Option<real>)
    ensures KeyFilter(SortByKey(s, key, asc), key, v) == KeyFilter(s, key, v)
  {
    if s != [] {
      SortByKeyStable(s[1..], key, asc, v);
      InsertKeyFilter(s[0], SortByKey(s[1..], key, asc), key, asc, v);
      assert s == [s[0]] + s[1..];
      KeyFilterConcat([s[0]], s[1..], key, v);
    }
  }

  /** The first `k` elements in key order, ties in original order
      (`nsmallest`/`nlargest` with `keep='first'`, and `sort_values` followed
      by a slice). */
  function TopK<T>(s: seq<T>, key: T -> Option<real>, asc: bool, k: nat): (r: seq<T>)
    ensures |r| == if k < |s| then k else |s|
    ensures SortedBy(r, key, asc)
    ensures multiset(r) <= multiset(s)
  {
    var sorted := SortByKey(s, key, asc);
    var r := sorted[..if k < |s| then k else |s|];
    assert sorted == r + sorted[|r|..];
    r
  }

  /** Every element left out of the top k is not placed before any element kept. */
  lemma TopKExcluded<T>(s: seq<T>, key: T -> Option<real>, asc: bool, k: nat, x: T, y: T)
    requires x in multiset(s) - multiset(TopK(s, key, asc, k))
    requires y in TopK(s, key, asc, k)
    ensures !Precedes(key(x), key(y), asc)
  {
    var sorted := SortByKey(s, key, asc);
    var r := TopK(s, key, asc, k);
    var n := |r|;
    assert sorted == r + sorted[n..];
    assert multiset(sorted) == multiset(r) + multiset(sorted[n..]);
    assert x in multiset(sorted[n..]);
    var i :| 0 <= i < |sorted[n..]| && sorted[n..][i] == x;
    var j :| 0 <= j < n && r[j] == y;
    assert sorted[n + i] == x && sorted[j] == y;
  }

  /** Among equal keys the top k keeps the first occurrences, in order. */
  lemma TopKStable<T>(s: seq<T>, key: T -> Option<real>, asc: bool, k: nat, v: Option<real>)
    ensures KeyFilter(TopK(s, key, asc, k), key, v) <= KeyFilter(s, key, v)
  {
    var sorted := SortByKey(s, key, asc);
    KeyFilterPrefix(sorted, |TopK(s, key, asc, k)|, key, v);
    SortByKeyStable(s, key, asc, v);
  }

  /** The key by which districts are ranked. */
  function MeanKey(row: DistrictRecord): Option<real>
  {
    row.mean
  }

  /** `datos.nsmallest(k, 'mean')`: the k coldest districts, ascending by mean. */
  function NSmallest(rows: Table, k: nat): (r: Table)
    ensures |r| == if k < |rows| then k else |rows|
    ensures forall i, j :: 0 <= i < j < |r| && r[j].mean.Some? ==>
      r[i].mean.Some? && r[i].mean.value <= r[j].mean.value
    ensures multiset(r) <= multiset(rows)
  {
    var r := TopK(rows, MeanKey, true, k);
    assert forall i, j :: 0 <= i < j < |r| ==> !Precedes(MeanKey(r[j]), MeanKey(r[i]), true);
    r
  }

  /** No district left out of the k coldest is colder than one kept, and a
      district without a mean is kept only once every district with one is. */
  lemma NSmallestExcluded(rows: Table, k: nat, x: DistrictRecord, y: DistrictRecord)
    requires x in multiset(rows) - multiset(NSmallest(rows, k))
    requires y in NSmallest(rows, k)
    ensures y.mean.None? ==> x.mean.None?
    ensures y.mean.Some? ==> x.mean.None? || y.mean.value <= x.mean.value
  {
    TopKExcluded(rows, MeanKey, true, k, x, y);
  }

  /** Districts with equal means are taken in table order, first ones first. */
  lemma NSmallestKeepsFirst(rows: Table, k: nat, v: Option<real>)
    ensures KeyFilter(NSmallest(rows, k), MeanKey, v) <= KeyFilter(rows, MeanKey, v)
  {
    TopKStable(rows, MeanKey, true, k, v);
  }

  /** `datos.nlargest(k, 'mean')`: the k warmest districts, descending by mean. */
  function NLargest(rows: Table, k: nat): (r: Table)
    ensures |r| == if k < |rows| then k else |rows|
    ensures forall i, j :: 0 <= i < j < |r| && r[j].mean.Some? ==>
      r[i].mean.Some? && r[i].mean.value >= r[j].mean.value
    ensures multiset(r) <= multiset(rows)
  {
    var r := TopK(rows, MeanKey, false, k);
    assert forall i, j :: 0 <= i < j < |r| ==> !Precedes(MeanKey(r[j]), MeanKey(r[i]), false);
    r
  }

  /** No district left out of the k warmest is warmer than one kept, and a
      district without a mean is kept only once every district with one is. */
  lemma NLargestExcluded(rows: Table, k: nat, x: DistrictRecord, y: DistrictRecord)
    requires x in multiset(rows) - multiset(NLargest(rows, k))
    requires y in NLargest(rows, k)
    ensures y.mean.None? ==> x.mean.None?
    ensures y.mean.Some? ==> x.mean.None? || y.mean.value >= x.mean.value
  {
    TopKExcluded(rows, MeanKey, false, k, x, y);
  }

  /** Districts with equal means are taken in table order, first ones first. */
  lemma NLargestKeepsFirst(rows: Table, k: nat, v: Option<real>)
    ensures KeyFilter(NLargest(rows, k), MeanKey, v) <= KeyFilter(rows, MeanKey, v)
  {
    TopKStable(rows, MeanKey, false, k, v);
  }
}
