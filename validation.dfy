/** The validation part of `load_data`: the statistics table is refused when it
    is empty, and then when any required column is absent. Reading the files is
    not modelled: the table is given by its column names and its row count. */
module Validation {
  import opened Sequences

  const RequiredColumns: seq<string> := ["DEPARTAMEN", "PROVINCIA", "DISTRITO", "mean", "min", "max", "std"]

  datatype LoadResult =
    | Ok
    | Empty                                   // "El archivo de estadísticas está vacío"
    | MissingColumns(missing: seq<string>)    // "Faltan columnas requeridas: ..."

  /** The entries of `required` that are not among `columns`, in the order of
      `required` (the list comprehension of the source). */
  function MissingFrom(required: seq<string>, columns: seq<string>): (r: seq<string>)
    ensures forall c :: c in r <==> c in required && c !in columns
    ensures Subsequence(r, required)
  {
    if required == [] then []
    else if required[0] in columns then
      var rest := MissingFrom(required[1..], columns);
      assert rest != [] ==> rest[0] in rest && rest[0] != required[0];
      rest
    else [required[0]] + MissingFrom(required[1..], columns)
  }

  /** A DataFrame is `empty` when it has no rows or no columns. */
  function Validate(columns: seq<string>, rowCount: nat): (r: LoadResult)
    ensures r == Ok <==> rowCount > 0 && forall c :: c in RequiredColumns ==> c in columns
    ensures r == Empty <==> rowCount == 0 || |columns| == 0
    ensures r.MissingColumns? ==>
      && r.missing != []
      && Subsequence(r.missing, RequiredColumns)
      && (forall c :: c in r.missing <==> c in RequiredColumns && c !in columns)
    ensures rowCount > 0 && |columns| > 0 && (exists c :: c in RequiredColumns && c !in columns) ==>
      r == MissingColumns(MissingFrom(RequiredColumns, columns))
  {
    if rowCount == 0 || |columns| == 0 then
      assert RequiredColumns[0] in RequiredColumns;
      Empty
    else
      var missing := MissingFrom(RequiredColumns, columns);
      if missing != [] then
        assert missing[0] in missing;
        MissingColumns(missing)
      else Ok
  }

  /** In a list without repetitions, an ordered selection is fixed by its
      members: the reported missing list is the only list the contract of
      Validate admits. */
  lemma {:induction false} SelectionUnique(a: seq<string>, b: seq<string>, required: seq<string>)
    requires forall i, j :: 0 <= i < j < |required| ==> required[i] != required[j]
    requires Subsequence(a, required) && Subsequence(b, required)
    requires forall c :: c in a <==> c in b
    ensures a == b
  {
    if required != [] && (a != [] || b != []) {
      var rs := required[1..];
      assert forall i, j :: 0 <= i < j < |rs| ==> rs[i] != rs[j] by {
        forall i, j | 0 <= i < j < |rs| ensures rs[i] != rs[j] { assert rs[i] == required[i + 1]; }
      }
      SubsequenceMembers(a, required);
      SubsequenceMembers(b, required);
      var h := required[0];
      if a != [] && a[0] == h {
        assert h in b;
        assert b[0] == h by { if b[0] != h { SubsequenceMembers(b, rs); assert h in rs; FirstNotInRest(required); } }
        NotInTail(a, required);
        NotInTail(b, required);
        SubsequenceMembers(a[1..], rs);
        SubsequenceMembers(b[1..], rs);
        FirstNotInRest(required);
        assert a == [h] + a[1..] && b == [h] + b[1..];
        forall c ensures c in a[1..] <==> c in b[1..] {
          assert c in a <==> c == h || c in a[1..];
          assert c in b <==> c == h || c in b[1..];
        }
        SelectionUnique(a[1..], b[1..], rs);
      } else if b != [] && b[0] == h {
        assert h in a;
        SubsequenceMembers(a, rs);
        FirstNotInRest(required);
      } else {
        assert a != [] ==> a[0] in a;
        SubsequenceMembers(a, rs);
        SubsequenceMembers(b, rs);
        if h in a {
          FirstNotInRest(required);
        }
        SelectionUnique(a, b, rs);
      }
    }
  }

  lemma {:induction false} SubsequenceMembers(a: seq<string>, b: seq<string>)
    requires Subsequence(a, b)
    ensures forall c :: c in a ==> c in b
  {
    if a != [] && b != [] {
      assert a == [a[0]] + a[1..] && b == [b[0]] + b[1..];
      if a[0] == b[0] { SubsequenceMembers(a[1..], b[1..]); } else { SubsequenceMembers(a, b[1..]); }
    }
  }

  lemma FirstNotInRest(required: seq<string>)
    requires required != []
    requires forall i, j :: 0 <= i < j < |required| ==> required[i] != required[j]
    ensures required[0] !in required[1..]
  {
    forall k | 0 <= k < |required[1..]| ensures required[1..][k] != required[0] {
      assert required[1..][k] == required[k + 1];
    }
  }

  lemma NotInTail(a: seq<string>, required: seq<string>)
    requires a != [] && required != [] && a[0] == required[0]
    requires Subsequence(a, required)
    ensures Subsequence(a[1..], required[1..])
  {
  }
}
