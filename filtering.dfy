/** The department selector of `main`: the list of options offered and the
    table that the chosen option leaves. */
module Filtering {
  import opened StringOrder
  import opened Sequences
  import opened Districts

  const AllDepartments: string := "Todos"

  /** Inserts `d` into a strictly ascending list unless it is already there. */
  function InsertName(d: string, s: seq<string>): (r: seq<string>)
    requires StrictlyAscending(s)
    ensures StrictlyAscending(r)
    ensures forall x :: x in r <==> x == d || x in s
  {
    if s == [] then [d]
    else if d == s[0] then s
    else if Less(d, s[0]) then
      assert forall j :: 0 < j < |s| ==> Less(d, s[j]) by {
        forall j | 0 < j < |s| ensures Less(d, s[j]) { LessTransitive(d, s[0], s[j]); }
      }
      [d] + s
    else
      LessTotal(d, s[0]);
      var rest := InsertName(d, s[1..]);
      assert forall j :: 0 <= j < |rest| ==> Less(s[0], rest[j]) by {
        forall j | 0 <= j < |rest| ensures Less(s[0], rest[j]) {
          assert rest[j] in rest;
        }
      }
      [s[0]] + rest
  }

  /** `sorted(datos['DEPARTAMEN'].unique())`. */
  function Departments(rows: Table): (r: seq<string>)
    ensures StrictlyAscending(r)
    ensures forall d :: d in r <==> exists row :: row in rows && row.department == d
  {
    if rows == [] then []
    else
      var r := InsertName(rows[0].department, Departments(rows[1..]));
      assert forall row :: row in rows <==> row == rows[0] || row in rows[1..];
      r
  }

  /** The options of the "Filtro Departamental" selector. */
  function DepartmentOptions(rows: Table): (r: seq<string>)
    ensures |r| >= 1 && r[0] == AllDepartments
    ensures StrictlyAscending(r[1..])
    ensures forall d :: d in r[1..] <==> exists row :: row in rows && row.department == d
  {
    [AllDepartments] + Departments(rows)
  }

  /** The table the selected option leaves (`datos_filtrados`). */
  function FilterDepartment(rows: Table, choice: string): (r: Table)
    ensures choice == AllDepartments ==> r == rows
    ensures choice != AllDepartments ==>
      && (forall row :: row in r ==> row.department == choice)
      && (forall row :: row in rows && row.department == choice ==> row in r)
      && Subsequence(r, rows)
      && |r| == CountOf(rows, choice)
    ensures |r| <= |rows|
  {
    if choice == AllDepartments then rows
    else
      OfDepartmentSubsequence(rows, choice);
      OfDepartment(rows, choice)
  }
}
