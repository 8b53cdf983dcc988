/** Department-level aggregates: `groupby('DEPARTAMEN')` with `size()`, with
    `['mean'].count()` and with `['mean'].agg(['count', 'mean'])`. A pandas
    groupby lists its keys in ascending order, which is the order of
    `Departments`. */
module Aggregation {
  import opened Wrappers
  import opened StringOrder
  import opened Districts
  import opened Filtering
  import opened Ranking
  import opened Statistics

  /** One entry of `groupby('DEPARTAMEN').size()`. */
  datatype GroupSize = GroupSize(department: string, size: nat)

  /** One row of `groupby('DEPARTAMEN')['mean'].agg(['count', 'mean'])`:
      the number of present means and their average (missing when there is none). */
  datatype DepartmentStats = DepartmentStats(department: string, count: nat, meanOfMeans: Option<real>)

  function SizesOver(ds: seq<string>, rows: Table): (r: seq<GroupSize>)
    ensures |r| == |ds|
    ensures forall i :: 0 <= i < |ds| ==> r[i] == GroupSize(ds[i], CountOf(rows, ds[i]))
  {
    if ds == [] then [] else [GroupSize(ds[0], CountOf(rows, ds[0]))] + SizesOver(ds[1..], rows)
  }

  function TotalSize(g: seq<GroupSize>): nat
  {
    if g == [] then 0 else g[0].size + TotalSize(g[1..])
  }

  /** `groupby('DEPARTAMEN').size()`: one entry per department present, in
      ascending name order, with the number of its rows. */
  function GroupSizes(rows: Table): (r: seq<GroupSize>)
    ensures |r| == |Departments(rows)|
    ensures forall i :: 0 <= i < |r| ==> r[i].department == Departments(rows)[i]
    ensures forall i :: 0 <= i < |r| ==> r[i].size == CountOf(rows, r[i].department) >= 1
  {
    var ds := Departments(rows);
    var r := SizesOver(ds, rows);
    assert forall i :: 0 <= i < |r| ==> CountOf(rows, ds[i]) >= 1 by {
      forall i | 0 <= i < |r| ensures CountOf(rows, ds[i]) >= 1 {
        assert ds[i] in ds;
        var row :| row in rows && row.department == ds[i];
        assert row in OfDepartment(rows, ds[i]);
      }
    }
    r
  }

  /** A department with no row has group size zero. */
  lemma AbsentDepartmentCount(rows: Table, d: string)
    requires d !in Departments(rows)
    ensures CountOf(rows, d) == 0
  {
    var f := OfDepartment(rows, d);
    if f != [] {
      assert f[0] in f;
    }
  }

  /** Sum of the group sizes over a list of names. */
  function CountSum(ds: seq<string>, rows: Table): nat
  {
    if ds == [] then 0 else CountOf(rows, ds[0]) + CountSum(ds[1..], rows)
  }

  lemma {:induction false} SizesOverTotal(ds: seq<string>, rows: Table)
    ensures TotalSize(SizesOver(ds, rows)) == CountSum(ds, rows)
  {
    if ds != [] {
      var g := SizesOver(ds, rows);
      assert g[1..] == SizesOver(ds[1..], rows);
      SizesOverTotal(ds[1..], rows);
    }
  }

  lemma {:induction false} CountSumEmpty(ds: seq<string>)
    ensures CountSum(ds, []) == 0
  {
    if ds != [] {
      CountSumEmpty(ds[1..]);
    }
  }

  lemma StrictlyAscendingTail(ds: seq<string>)
    requires StrictlyAscending(ds) && ds != []
    ensures StrictlyAscending(ds[1..]) && ds[0] !in ds[1..]
  {
    assert forall i, j :: 0 <= i < j < |ds| - 1 ==> ds[1..][i] == ds[i + 1] && ds[1..][j] == ds[j + 1];
    forall k | 0 <= k < |ds| - 1 ensures ds[1..][k] != ds[0] {
      StrictlyAscendingDistinct(ds, 0, k + 1);
    }
  }

  /** Adding one row to the table adds one to the sum when its department is listed once. */
  lemma {:induction false} CountSumHead(ds: seq<string>, row: DistrictRecord, rest: Table)
    requires StrictlyAscending(ds)
    ensures CountSum(ds, [row] + rest) == CountSum(ds, rest) + (if row.department in ds then 1 else 0)
  {
    if ds != [] {
      var rows := [row] + rest;
      assert rows[0] == row && rows[1..] == rest;
      assert CountOf(rows, ds[0]) == (if row.department == ds[0] then 1 else 0) + CountOf(rest, ds[0]);
      StrictlyAscendingTail(ds);
      CountSumHead(ds[1..], row, rest);
    }
  }

  /** When every department of the table is listed exactly once, the group sizes add up to the row count. */
  lemma {:induction false} CountSumCoversAll(ds: seq<string>, rows: Table)
    requires StrictlyAscending(ds)
    requires forall row :: row in rows ==> row.department in ds
    ensures CountSum(ds, rows) == |rows|
  {
    if rows == [] {
      CountSumEmpty(ds);
    } else {
      assert rows == [rows[0]] + rows[1..];
      assert rows[0] in rows;
      CountSumHead(ds, rows[0], rows[1..]);
      CountSumCoversAll(ds, rows[1..]);
    }
  }

  /** The group sizes of any table add up to its number of rows. */
  lemma GroupSizesTotal(rows: Table)
    ensures TotalSize(GroupSizes(rows)) == |rows|
  {
    var ds := Departments(rows);
    SizesOverTotal(ds, rows);
    CountSumCoversAll(ds, rows);
  }

  function StatsOf(rows: Table, d: string): (s: DepartmentStats)
    ensures s.department == d
    ensures s.count == |DepartmentMeans(rows, d)| == CountOf(PresentRows(rows), d)
    ensures s.meanOfMeans.Some? <==> s.count > 0
    ensures s.meanOfMeans.Some? ==>
      MinOf(DepartmentMeans(rows, d)) <= s.meanOfMeans.value <= MaxOf(DepartmentMeans(rows, d))
  {
    var xs := DepartmentMeans(rows, d);
    DepartmentMeansCount(rows, d);
    if xs == [] then DepartmentStats(d, 0, None)
    else
      var avg := Average(xs);
      assert MinOf(xs) <= avg <= MaxOf(xs);
      DepartmentStats(d, |xs|, Some(avg))
  }

  function StatsOver(ds: seq<string>, rows: Table): (r: seq<DepartmentStats>)
    ensures |r| == |ds|
    ensures forall i :: 0 <= i < |ds| ==> r[i] == StatsOf(rows, ds[i])
  {
    if ds == [] then [] else [StatsOf(rows, ds[0])] + StatsOver(ds[1..], rows)
  }

  function TotalCount(g: seq<DepartmentStats>): nat
  {
    if g == [] then 0 else g[0].count + TotalCount(g[1..])
  }

  /** `groupby('DEPARTAMEN')['mean'].agg(['count', 'mean'])`, in ascending
      department order. */
  function GroupStats(rows: Table): (r: seq<DepartmentStats>)
    ensures |r| == |Departments(rows)|
    ensures forall i :: 0 <= i < |r| ==> r[i] == StatsOf(rows, Departments(rows)[i])
  {
    StatsOver(Departments(rows), rows)
  }

  lemma {:induction false} StatsOverTotal(ds: seq<string>, rows: Table)
    ensures TotalCount(StatsOver(ds, rows)) == CountSum(ds, PresentRows(rows))
  {
    if ds != [] {
      var g := StatsOver(ds, rows);
      assert g[1..] == StatsOver(ds[1..], rows);
      StatsOverTotal(ds[1..], rows);
    }
  }

  /** The per-department counts of present means add up to the number of
      present means in the table. */
  lemma GroupStatsTotal(rows: Table)
    ensures TotalCount(GroupStats(rows)) == |Means(rows)|
  {
    var ds := Departments(rows);
    StatsOverTotal(ds, rows);
    forall row | row in PresentRows(rows) ensures row.department in ds {
      assert row in rows;
    }
    CountSumCoversAll(ds, PresentRows(rows));
  }

  function MeanOfMeansKey(s: DepartmentStats): Option<real>
  {
    s.meanOfMeans
  }

  function CountKey(s: DepartmentStats): Option<real>
  {
    Some(s.count as real)
  }

  /** `...agg(['count', 'mean']).sort_values('mean')`: the departments from
      coldest to warmest average, a department without present means last. */
  function StatsByMean(rows: Table): (r: seq<DepartmentStats>)
    ensures multiset(r) == multiset(GroupStats(rows))
    ensures forall i, j :: 0 <= i < j < |r| && r[j].meanOfMeans.Some? ==>
      r[i].meanOfMeans.Some? && r[i].meanOfMeans.value <= r[j].meanOfMeans.value
  {
    var r := SortByKey(GroupStats(rows), MeanOfMeansKey, true);
    assert forall i, j :: 0 <= i < j < |r| ==> !Precedes(MeanOfMeansKey(r[j]), MeanOfMeansKey(r[i]), true);
    r
  }

  /** `groupby('DEPARTAMEN')['mean'].count().nlargest(8)`: the eight
      departments with the most present means; its index names them. */
  function TopDepartments(rows: Table): (r: seq<DepartmentStats>)
    ensures |r| == if 8 < |Departments(rows)| then 8 else |Departments(rows)|
    ensures forall i, j :: 0 <= i < j < |r| ==> r[i].count >= r[j].count
    ensures multiset(r) <= multiset(GroupStats(rows))
  {
    var r := TopK(GroupStats(rows), CountKey, false, 8);
    assert forall i, j :: 0 <= i < j < |r| ==> !Precedes(CountKey(r[j]), CountKey(r[i]), false);
    r
  }

  /** A department left out of the eight has no more present means than any kept. */
  lemma TopDepartmentsExcluded(rows: Table, x: DepartmentStats, y: DepartmentStats)
    requires x in multiset(GroupStats(rows)) - multiset(TopDepartments(rows))
    requires y in TopDepartments(rows)
    ensures x.count <= y.count
  {
    var g := GroupStats(rows);
    assert TopDepartments(rows) == TopK(g, CountKey, false, 8);
    TopKExcluded(g, CountKey, false, 8, x, y);
    assert CountKey(x) == Some(x.count as real) && CountKey(y) == Some(y.count as real);
  }
}
