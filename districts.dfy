/** The statistics table: one row per district, with the department, province
    and district names, the zonal statistics of the minimum-temperature raster
    (mean, min, max, std, in degrees Celsius) and the pixel count. The model
    treats temperatures as mathematical reals; a mean that pandas would hold
    as NaN is `None`. */
module Districts {
  import opened Wrappers
  import opened Sequences

  datatype DistrictRecord = DistrictRecord(
    department: string,
    province: string,
    district: string,
    mean: Option<real>,
    min: real,
    max: real,
    std: real,
    count: nat)

  type Table = seq<DistrictRecord>

  /** The `mean` column without its missing cells, in row order
      (`datos['mean'].dropna()`). */
  function Means(rows: Table): (r: seq<real>)
    ensures |r| <= |rows|
  {
    if rows == [] then []
    else (if rows[0].mean.Some? then [rows[0].mean.value] else []) + Means(rows[1..])
  }

  /** Every present mean, and nothing else. */
  lemma {:induction false} MeansMembers(rows: Table)
    ensures |Means(rows)| <= |rows|
    ensures forall x :: x in Means(rows) <==> exists row :: row in rows && row.mean == Some(x)
  {
    if rows != [] {
      MeansMembers(rows[1..]);
      assert forall row :: row in rows <==> row == rows[0] || row in rows[1..];
    }
  }

  lemma {:induction false} MeansConcat(a: Table, b: Table)
    ensures Means(a + b) == Means(a) + Means(b)
  {
    if a == [] {
      assert a + b == b;
    } else {
      var h := if a[0].mean.Some? then [a[0].mean.value] else [];
      assert (a + b)[0] == a[0] && (a + b)[1..] == a[1..] + b;
      assert Means(a + b) == h + Means(a[1..] + b);
      MeansConcat(a[1..], b);
      assert Means(a) == h + Means(a[1..]);
    }
  }

  /** Means depends only on which rows there are, not on their order. */
  lemma {:induction false} MeansPermutation(s: Table, t: Table)
    requires multiset(s) == multiset(t)
    ensures multiset(Means(s)) == multiset(Means(t))
    decreases |s|
  {
    if s != [] {
      var x := s[0];
      assert x in multiset(t);
      var j :| 0 <= j < |t| && t[j] == x;
      var t' := t[..j] + t[j + 1..];
      assert t == t[..j] + [x] + t[j + 1..];
      assert s == [x] + s[1..];
      assert multiset(t) == multiset(t[..j]) + multiset([x]) + multiset(t[j + 1..]);
      assert multiset(s) == multiset([x]) + multiset(s[1..]);
      assert multiset(t') == multiset(t[..j]) + multiset(t[j + 1..]);
      assert multiset(s[1..]) == multiset(s) - multiset{x};
      assert multiset(t') == multiset(t) - multiset{x};
      MeansPermutation(s[1..], t');
      MeansConcat(t[..j], [x]);
      MeansConcat(t[..j] + [x], t[j + 1..]);
      MeansConcat(t[..j], t[j + 1..]);
      MeansConcat([x], s[1..]);
    }
  }

  /** The rows whose mean is present (`datos.dropna(subset=['mean'])`). */
  function PresentRows(rows: Table): (r: Table)
    ensures |r| == |Means(rows)| && |r| <= |rows|
    ensures forall row :: row in r <==> row in rows && row.mean.Some?
  {
    if rows == [] then []
    else
      (if rows[0].mean.Some? then [rows[0]] else []) + PresentRows(rows[1..])
  }

  /** The present means are the means of the rows `dropna` keeps, one for
      one and in the same order, so each present mean occurs as often as
      rows carry it. */
  lemma {:induction false} MeansOfPresent(rows: Table)
    ensures |Means(rows)| == |PresentRows(rows)|
    ensures forall i :: 0 <= i < |Means(rows)| ==> PresentRows(rows)[i].mean == Some(Means(rows)[i])
  {
    if rows != [] {
      MeansOfPresent(rows[1..]);
    }
  }

  /** Each row with a present mean is kept as often as it occurs, and no other row is kept. */
  lemma {:induction false} PresentRowsMultiplicity(rows: Table)
    ensures forall row :: multiset(PresentRows(rows))[row] == if row.mean.Some? then multiset(rows)[row] else 0
  {
    if rows != [] {
      PresentRowsMultiplicity(rows[1..]);
      assert rows == [rows[0]] + rows[1..];
      assert multiset(rows) == multiset{rows[0]} + multiset(rows[1..]);
    }
  }

  /** The rows of one department, in row order (`datos[datos['DEPARTAMEN'] == d]`). */
  function OfDepartment(rows: Table, d: string): (r: Table)
    ensures |r| <= |rows|
    ensures forall row :: row in r <==> row in rows && row.department == d
  {
    if rows == [] then []
    else
      (if rows[0].department == d then [rows[0]] else []) + OfDepartment(rows[1..], d)
  }

  /** Each row of the department is kept as often as it occurs, and no other row is kept. */
  lemma {:induction false} OfDepartmentMultiplicity(rows: Table, d: string)
    ensures forall row :: multiset(OfDepartment(rows, d))[row] == if row.department == d then multiset(rows)[row] else 0
  {
    if rows != [] {
      OfDepartmentMultiplicity(rows[1..], d);
      assert rows == [rows[0]] + rows[1..];
      assert multiset(rows) == multiset{rows[0]} + multiset(rows[1..]);
    }
  }

  /** Number of rows of department `d`: the group size of `groupby(...).size()`. */
  function CountOf(rows: Table, d: string): (n: nat)
    ensures n <= |rows|
  {
    |OfDepartment(rows, d)|
  }

  /** The present means of department `d`. */
  function DepartmentMeans(rows: Table, d: string): seq<real>
  {
    Means(OfDepartment(rows, d))
  }

  /** Non-missing count of `mean` in a department (`groupby(...)['mean'].count()`)
      is the group size taken over the rows whose mean is present. */
  lemma {:induction false} DepartmentMeansCount(rows: Table, d: string)
    ensures |DepartmentMeans(rows, d)| == CountOf(PresentRows(rows), d)
  {
    if rows != [] {
      DepartmentMeansCount(rows[1..], d);
      assert OfDepartment(rows, d) ==
        (if rows[0].department == d then [rows[0]] else []) + OfDepartment(rows[1..], d);
      MeansConcat(if rows[0].department == d then [rows[0]] else [], OfDepartment(rows[1..], d));
      var p := if rows[0].mean.Some? then [rows[0]] else [];
      assert PresentRows(rows) == p + PresentRows(rows[1..]);
      OfDepartmentConcat(p, PresentRows(rows[1..]), d);
    }
  }

  lemma {:induction false} OfDepartmentConcat(a: Table, b: Table, d: string)
    ensures OfDepartment(a + b, d) == OfDepartment(a, d) + OfDepartment(b, d)
  {
    if a == [] {
      assert a + b == b;
    } else {
      assert (a + b)[0] == a[0] && (a + b)[1..] == a[1..] + b;
      OfDepartmentConcat(a[1..], b, d);
    }
  }


  lemma {:induction false} OfDepartmentSubsequence(rows: Table, d: string)
    ensures Subsequence(OfDepartment(rows, d), rows)
  {
    if rows != [] {
      OfDepartmentSubsequence(rows[1..], d);
      if rows[0].department == d {
        assert OfDepartment(rows, d) == [rows[0]] + OfDepartment(rows[1..], d);
      } else {
        var rest := OfDepartment(rows[1..], d);
        assert OfDepartment(rows, d) == rest;
        assert rest != [] ==> rest[0] in rest && rest[0] != rows[0];
      }
    }
  }
}
