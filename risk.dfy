/** Risk classification: the 10th percentile of the district means is the
    high-risk threshold, a district is high-risk when its mean is at or below
    it, and the high-risk districts are counted per department. */
module Risk {
  import opened Wrappers
  import opened Sequences
  import opened StringOrder
  import opened Districts
  import opened Filtering
  import opened Ranking
  import opened Statistics
  import opened Aggregation

  const RiskQuantile: real := 0.1

  /** `datos['mean'].quantile(0.1)`, over the present means; `None` where pandas
      yields NaN because no mean is present. */
  function Threshold(rows: Table): (t: Option<real>)
    ensures t.None? <==> Means(rows) == []
    ensures t.Some? ==> MinOf(Means(rows)) <= t.value <= MaxOf(Means(rows))
    ensures t.Some? ==>
      var sorted := SortReals(Means(rows));
      sorted[Rank(|sorted|, RiskQuantile)] <= t.value <= sorted[UpperRank(|sorted|, RiskQuantile)]
  {
    if Means(rows) == [] then None else Some(Quantile(Means(rows), RiskQuantile))
  }

  /** `mean <= threshold`; a missing mean compares false. */
  predicate IsHighRisk(row: DistrictRecord, threshold: real)
    ensures row.mean.None? ==> !IsHighRisk(row, threshold)
    ensures row.mean.Some? ==> (IsHighRisk(row, threshold) <==> row.mean.value <= threshold)
  {
    row.mean.Some? && row.mean.value <= threshold
  }

  /** `datos[datos['mean'] <= threshold]`. */
  function HighRisk(rows: Table, threshold: real): (r: Table)
    ensures |r| <= |rows|
    ensures Subsequence(r, rows)
    ensures forall row :: row in r <==> row in rows && IsHighRisk(row, threshold)
  {
    if rows == [] then []
    else
      var rest := HighRisk(rows[1..], threshold);
      if IsHighRisk(rows[0], threshold) then [rows[0]] + rest
      else
        assert rest != [] ==> rest[0] in rest && rest[0] != rows[0];
        rest
  }

  /** Each high-risk row is kept as often as it occurs, and no other row is kept. */
  lemma {:induction false} HighRiskMultiplicity(rows: Table, threshold: real)
    ensures forall row :: multiset(HighRisk(rows, threshold))[row] == if IsHighRisk(row, threshold) then multiset(rows)[row] else 0
  {
    if rows != [] {
      HighRiskMultiplicity(rows[1..], threshold);
      assert rows == [rows[0]] + rows[1..];
      assert multiset(rows) == multiset{rows[0]} + multiset(rows[1..]);
    }
  }

  /** The high-risk districts are those whose present mean is at most the threshold. */
  lemma {:induction false} HighRiskCount(rows: Table, threshold: real)
    ensures |HighRisk(rows, threshold)| == CountAtMost(Means(rows), threshold)
  {
    if rows != [] {
      HighRiskCount(rows[1..], threshold);
      var h := if rows[0].mean.Some? then [rows[0].mean.value] else [];
      assert Means(rows) == h + Means(rows[1..]);
      CountAtMostConcat(h, Means(rows[1..]), threshold);
    }
  }

  /** The threshold is a 10th percentile: of the n present means, at least
      floor((n-1)/10) + 1 are at or below it, so that many districts are high-risk. */
  lemma ThresholdRank(rows: Table)
    requires Means(rows) != []
    ensures Threshold(rows).Some?
    ensures |HighRisk(rows, Threshold(rows).value)| >= Rank(|Means(rows)|, RiskQuantile) + 1
  {
    var t := Threshold(rows).value;
    var sorted := SortReals(Means(rows));
    AscendingCountAtMost(sorted, Rank(|sorted|, RiskQuantile), t);
    CountAtMostPermutation(sorted, Means(rows), t);
    HighRiskCount(rows, t);
  }

  /** The threshold does not depend on the order of the rows. */
  lemma ThresholdPermutation(rows: Table, other: Table)
    requires multiset(rows) == multiset(other)
    ensures Threshold(rows) == Threshold(other)
  {
    MeansPermutation(rows, other);
    if Means(rows) != [] {
      QuantilePermutation(Means(rows), Means(other), RiskQuantile);
    } else {
      assert |Means(other)| == |multiset(Means(other))| == 0;
    }
  }

  /** A table with a present mean has a high-risk district: every district at
      the coldest mean is one. */
  lemma HighRiskNonEmpty(rows: Table)
    requires Means(rows) != []
    ensures Threshold(rows).Some?
    ensures forall row :: row in rows && row.mean == Some(MinOf(Means(rows))) ==>
      row in HighRisk(rows, Threshold(rows).value)
    ensures HighRisk(rows, Threshold(rows).value) != []
  {
    var m := MinOf(Means(rows));
    MeansMembers(rows);
    var row :| row in rows && row.mean == Some(m);
    assert row in HighRisk(rows, Threshold(rows).value);
  }

  /** Classifying against a fixed threshold commutes with the department filter. */
  lemma {:induction false} HighRiskOfDepartment(rows: Table, d: string, threshold: real)
    ensures HighRisk(OfDepartment(rows, d), threshold) == OfDepartment(HighRisk(rows, threshold), d)
  {
    if rows != [] {
      HighRiskOfDepartment(rows[1..], d, threshold);
      var f := OfDepartment(rows, d);
      if rows[0].department == d {
        assert f == [rows[0]] + OfDepartment(rows[1..], d);
        assert f[0] == rows[0] && f[1..] == OfDepartment(rows[1..], d);
      } else {
        assert f == OfDepartment(rows[1..], d);
      }
      var h := HighRisk(rows, threshold);
      if IsHighRisk(rows[0], threshold) {
        assert h[0] == rows[0] && h[1..] == HighRisk(rows[1..], threshold);
      } else {
        assert h == HighRisk(rows[1..], threshold);
      }
    }
  }

  function SizeKey(g: GroupSize): Option<real>
  {
    Some(g.size as real)
  }

  /** `datos[datos['mean'] <= threshold].groupby('DEPARTAMEN').size()
      .sort_values(ascending=False)`, cut to its first ten entries. */
  function RiskByDepartment(shown: Table, threshold: real): (r: seq<GroupSize>)
    ensures |r| == if |Departments(HighRisk(shown, threshold))| < 10 then |Departments(HighRisk(shown, threshold))| else 10
    ensures forall i, j :: 0 <= i < j < |r| ==> r[i].size >= r[j].size
    ensures multiset(r) <= multiset(GroupSizes(HighRisk(shown, threshold)))
  {
    var groups := GroupSizes(HighRisk(shown, threshold));
    var r := TopK(groups, SizeKey, false, 10);
    assert forall i, j :: 0 <= i < j < |r| ==> !Precedes(SizeKey(r[j]), SizeKey(r[i]), false);
    r
  }

  /** The chart keeps the largest counts: no department left out has more
      high-risk districts than one shown. */
  lemma RiskByDepartmentExcluded(shown: Table, threshold: real, x: GroupSize, y: GroupSize)
    requires x in multiset(GroupSizes(HighRisk(shown, threshold))) - multiset(RiskByDepartment(shown, threshold))
    requires y in RiskByDepartment(shown, threshold)
    ensures x.size <= y.size
  {
    TopKExcluded(GroupSizes(HighRisk(shown, threshold)), SizeKey, false, 10, x, y);
  }

  /** Each entry of the risk chart is a department with its number of high-risk districts. */
  lemma RiskByDepartmentEntries(shown: Table, threshold: real, g: GroupSize)
    requires g in RiskByDepartment(shown, threshold)
    ensures g.size == CountOf(HighRisk(shown, threshold), g.department) >= 1
  {
    var groups := GroupSizes(HighRisk(shown, threshold));
    assert g in multiset(groups);
    var i :| 0 <= i < |groups| && groups[i] == g;
  }

  /** The chart has a bar as soon as some district is high-risk. */
  lemma RiskByDepartmentNonEmpty(shown: Table, threshold: real)
    requires HighRisk(shown, threshold) != []
    ensures RiskByDepartment(shown, threshold) != []
  {
    var h := HighRisk(shown, threshold);
    assert h[0] in h;
    assert h[0].department in Departments(h);
  }

  /** The chart of a one-department table is that department's high-risk count. */
  lemma RiskByDepartmentSingle(shown: Table, threshold: real, d: string)
    requires forall row :: row in shown ==> row.department == d
    requires HighRisk(shown, threshold) != []
    ensures RiskByDepartment(shown, threshold) == [GroupSize(d, |HighRisk(shown, threshold)|)]
  {
    var h := HighRisk(shown, threshold);
    SingleDepartmentGroups(h, d);
    assert RiskByDepartment(shown, threshold)[0] in multiset(GroupSizes(h));
  }

  /** Lines 190-191 as written: the threshold is recomputed over the table
      shown, which is the department-filtered one when a department is chosen.
      Its own 10th percentile always has a district at or below it, so every
      view with a present mean shows a bar, and a one-department view always
      shows its department. */
  function RiskByDepartmentAsWritten(shown: Table): (r: seq<GroupSize>)
    ensures r == [] <==> Means(shown) == []
    ensures forall d :: (forall row :: row in shown ==> row.department == d) && Means(shown) != [] ==>
      r == [GroupSize(d, |HighRisk(shown, Threshold(shown).value)|)] && r[0].size >= 1
  {
    match Threshold(shown)
    case None => []
    case Some(t) =>
      HighRiskNonEmpty(shown);
      RiskByDepartmentNonEmpty(shown, t);
      forall d | (forall row :: row in shown ==> row.department == d)
        ensures RiskByDepartment(shown, t) == [GroupSize(d, |HighRisk(shown, t)|)]
      {
        RiskByDepartmentSingle(shown, t, d);
      }
      RiskByDepartment(shown, t)
  }

  lemma {:induction false} OfDepartmentAll(rows: Table, d: string)
    requires forall row :: row in rows ==> row.department == d
    ensures OfDepartment(rows, d) == rows
  {
    if rows != [] {
      assert rows[0] in rows;
      assert forall row :: row in rows[1..] ==> row in rows;
      OfDepartmentAll(rows[1..], d);
    }
  }

  /** A table of one department groups into a single entry. */
  lemma SingleDepartmentGroups(h: Table, d: string)
    requires forall row :: row in h ==> row.department == d
    ensures GroupSizes(h) == if h == [] then [] else [GroupSize(d, |h|)]
  {
    var ds := Departments(h);
    if |ds| >= 2 {
      assert ds[0] in ds && ds[1] in ds;
      LessIrreflexive(d);
      assert false;
    }
    if h == [] {
      assert ds == [];
    } else {
      assert h[0] in h;
      assert d in ds;
      assert ds == [d];
      OfDepartmentAll(h, d);
    }
  }

  /** The risk chart of a department-filtered view, against the national
      threshold: one entry with the national high-risk districts of that
      department, or nothing when it has none. */
  function DepartmentRiskChart(rows: Table, choice: string, nationalThreshold: real): (r: seq<GroupSize>)
    ensures choice != AllDepartments ==>
      r == if CountOf(HighRisk(rows, nationalThreshold), choice) == 0 then []
           else [GroupSize(choice, CountOf(HighRisk(rows, nationalThreshold), choice))]
    ensures choice == AllDepartments ==> r == RiskByDepartment(rows, nationalThreshold)
  {
    var shown := FilterDepartment(rows, choice);
    var r := RiskByDepartment(shown, nationalThreshold);
    if choice != AllDepartments then
      HighRiskOfDepartment(rows, choice, nationalThreshold);
      var h := HighRisk(shown, nationalThreshold);
      assert forall row :: row in h ==> row.department == choice;
      SingleDepartmentGroups(h, choice);
      assert |h| == CountOf(HighRisk(rows, nationalThreshold), choice);
      assert h != [] ==> r[0] in multiset(GroupSizes(h));
      r
    else r
  }

  /** `idxmax` of a list of group sizes: the first position of the largest size. */
  function FirstMax(g: seq<GroupSize>): (i: nat)
    requires |g| > 0
    ensures i < |g|
    ensures forall j :: 0 <= j < |g| ==> g[j].size <= g[i].size
    ensures forall j :: 0 <= j < i ==> g[j].size < g[i].size
  {
    if |g| == 1 then 0
    else
      var k := 1 + FirstMax(g[1..]);
      assert forall j :: 1 <= j < |g| ==> g[j] == g[1..][j - 1];
      if g[0].size >= g[k].size then 0 else k
  }

  /** Lines 298-299: the department with the most high-risk districts under the
      national threshold, and that number. pandas raises when no district is
      high-risk, so the caller must ensure there is one. */
  function MostAffected(rows: Table, nationalThreshold: real): (r: GroupSize)
    requires HighRisk(rows, nationalThreshold) != []
    ensures r.size == CountOf(HighRisk(rows, nationalThreshold), r.department) >= 1
    ensures forall d :: CountOf(HighRisk(rows, nationalThreshold), d) <= r.size
    ensures forall d :: CountOf(HighRisk(rows, nationalThreshold), d) == r.size ==>
      d == r.department || Less(r.department, d)
  {
    var h := HighRisk(rows, nationalThreshold);
    var groups := GroupSizes(h);
    assert h[0] in h;
    assert h[0].department in Departments(h);
    var i := FirstMax(groups);
    var r := groups[i];
    forall d ensures CountOf(h, d) <= r.size && (CountOf(h, d) == r.size ==> d == r.department || Less(r.department, d)) {
      if d in Departments(h) {
        var j :| 0 <= j < |Departments(h)| && Departments(h)[j] == d;
        assert groups[j].department == d;
        if CountOf(h, d) == r.size && j != i {
          assert j > i;
        }
      } else {
        AbsentDepartmentCount(h, d);
      }
    }
    r
  }

  /** The "Departamento Más Vulnerable" card with the empty case handled:
      nothing to report when no district is at or below the threshold. */
  function MostVulnerable(rows: Table, nationalThreshold: real): (r: Option<GroupSize>)
    ensures r.None? <==> HighRisk(rows, nationalThreshold) == []
    ensures r.Some? ==> r.value == MostAffected(rows, nationalThreshold)
    ensures r.None? ==> forall d :: CountOf(HighRisk(rows, nationalThreshold), d) == 0
  {
    if HighRisk(rows, nationalThreshold) == [] then None
    else Some(MostAffected(rows, nationalThreshold))
  }
}

/** A three-district table: two districts of department X, one of Y. */
module RiskScenario {
  import opened Wrappers
  import opened Districts
  import opened Filtering
  import opened Statistics
  import opened Aggregation
  import opened Risk

  function Row(department: string, district: string, mean: real): DistrictRecord
  {
    DistrictRecord(department, "P", district, Some(mean), mean, mean, 0.0, 1)
  }

  function Sample(): Table
  {
    [Row("X", "A", -5.0), Row("X", "B", 10.0), Row("Y", "C", 2.0)]
  }

  lemma SampleMeans()
    ensures Means(Sample()) == [-5.0, 10.0, 2.0]
  {
    var rows := Sample();
    var c := [Row("Y", "C", 2.0)];
    var bc := [Row("X", "B", 10.0)] + c;
    assert rows[1..] == bc;
    assert bc[1..] == c;
    assert c[1..] == [];
    assert Means(c) == [2.0];
    assert Means(bc) == [10.0, 2.0];
  }

  lemma SampleSorted()
    ensures SortReals([-5.0, 10.0, 2.0]) == [-5.0, 2.0, 10.0]
  {
    var xs := [-5.0, 10.0, 2.0];
    var ys := [-5.0, 2.0, 10.0];
    assert multiset(xs) == multiset(ys);
    assert Ascending(ys);
    AscendingUnique(SortReals(xs), ys);
  }

  lemma SampleInterpolate()
    ensures Ascending([-5.0, 2.0, 10.0])
    ensures Interpolate([-5.0, 2.0, 10.0], 0.1) == -3.6
  {
    var ys := [-5.0, 2.0, 10.0];
    var h := (|ys| - 1) as real * 0.1;
    assert h == 0.2;
    assert h.Floor == 0;
  }

  /** The 10th percentile of the means -5, 10, 2 is -5 + 0.2 * (2 - (-5)) = -3.6. */
  lemma SampleThreshold()
    ensures Threshold(Sample()) == Some(-3.6)
  {
    SampleMeans();
    SampleSorted();
    SampleInterpolate();
    assert Quantile([-5.0, 10.0, 2.0], RiskQuantile) == Interpolate([-5.0, 2.0, 10.0], 0.1);
  }

  lemma SingleThreshold(c: Table)
    requires c == [Row("Y", "C", 2.0)]
    ensures Threshold(c) == Some(2.0)
  {
    assert c[1..] == [];
    assert Means(c) == [2.0];
    assert SortReals([2.0]) == [2.0];
    var h := 0 as real * 0.1;
    assert h.Floor == 0;
    assert Interpolate([2.0], 0.1) == 2.0;
    assert Quantile([2.0], RiskQuantile) == 2.0;
  }

  lemma SampleFilterY()
    ensures FilterDepartment(Sample(), "Y") == [Row("Y", "C", 2.0)]
  {
    var rows := Sample();
    var c := [Row("Y", "C", 2.0)];
    var bc := [Row("X", "B", 10.0)] + c;
    assert rows[1..] == bc && bc[1..] == c && c[1..] == [];
    assert OfDepartment(c, "Y") == c;
    assert OfDepartment(bc, "Y") == c;
  }

  lemma SampleNationalHighRisk()
    ensures HighRisk(Sample(), -3.6) == [Row("X", "A", -5.0)]
    ensures CountOf(HighRisk(Sample(), -3.6), "Y") == 0
  {
    var rows := Sample();
    var c := [Row("Y", "C", 2.0)];
    var bc := [Row("X", "B", 10.0)] + c;
    assert rows[1..] == bc && bc[1..] == c && c[1..] == [];
    assert HighRisk(c, -3.6) == [] && HighRisk(bc, -3.6) == [];
    var a := [Row("X", "A", -5.0)];
    assert a[1..] == [];
    assert OfDepartment(a, "Y") == [];
  }

  /** Lines 190-191 under the filter "Y": recomputing the threshold over the
      one district of Y makes it high-risk, although nationally Y has no
      high-risk district (the national threshold is -3.6). */
  lemma FilteredThresholdDiverges()
    ensures RiskByDepartmentAsWritten(FilterDepartment(Sample(), "Y")) == [GroupSize("Y", 1)]
    ensures DepartmentRiskChart(Sample(), "Y", -3.6) == []
  {
    SampleFilterY();
    var shown := [Row("Y", "C", 2.0)];
    SingleThreshold(shown);
    var h := HighRisk(shown, 2.0);
    assert shown[1..] == [];
    assert h == shown;
    SingleDepartmentGroups(h, "Y");
    var r := RiskByDepartment(shown, 2.0);
    assert r[0] in multiset(GroupSizes(h));
    SampleNationalHighRisk();
  }

  /** The Y view of the sample has no district at or below the national
      threshold, so line 298 as written takes `idxmax` of an empty series. */
  lemma FilteredViewHasNoHighRisk()
    ensures Threshold(Sample()) == Some(-3.6)
    ensures HighRisk(FilterDepartment(Sample(), "Y"), -3.6) == []
    ensures MostVulnerable(FilterDepartment(Sample(), "Y"), -3.6) == None
  {
    SampleThreshold();
    SampleFilterY();
    var shown := [Row("Y", "C", 2.0)];
    assert shown[1..] == [];
    assert HighRisk(shown, -3.6) == [];
  }
}
