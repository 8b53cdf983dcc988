/** The national summary-metrics record and the two percentages shown beside
    it: the share of high-risk districts and the coverage of the mean column. */
module Summary {
  import opened Districts
  import opened Risk

  /** The summary-metrics document, as loaded. */
  datatype SummaryMetrics = SummaryMetrics(
    totalDistricts: nat,
    highRiskDistricts: nat,
    nationalMeanTemp: real,
    extremeMinTemp: real,
    extremeMaxTemp: real,
    coldestDistrict: string,
    warmestDistrict: string,
    riskThreshold: real)

  /** `part / whole * 100`. */
  function Percent(part: nat, whole: nat): (r: real)
    requires whole > 0
    ensures 0.0 <= r
    ensures part <= whole ==> r <= 100.0
    ensures r == 0.0 <==> part == 0
    ensures r == 100.0 <==> part == whole
  {
    var f := part as real / whole as real;
    assert f * whole as real == part as real;
    assert part == whole ==> f == 1.0;
    assert f * 100.0 == 100.0 ==> f == 1.0;
    f * 100.0
  }

  /** The delta of "Distritos en Alto Riesgo":
      `distritos_alto_riesgo / total_distritos * 100`. */
  function HighRiskShare(m: SummaryMetrics): (r: real)
    requires m.totalDistricts > 0
    ensures 0.0 <= r
    ensures m.highRiskDistricts <= m.totalDistricts ==> r <= 100.0
  {
    Percent(m.highRiskDistricts, m.totalDistricts)
  }

  /** The record agrees with the table it summarises. The dashboard does not
      check this; it is the hypothesis under which its figures match. */
  ghost predicate ConsistentWith(m: SummaryMetrics, rows: Table)
  {
    && m.totalDistricts == |rows|
    && m.highRiskDistricts == |HighRisk(rows, m.riskThreshold)|
  }

  /** For a record consistent with the table, the share is the percentage of
      its rows at or below the record's threshold. */
  lemma ShareOfConsistentMetrics(m: SummaryMetrics, rows: Table)
    requires ConsistentWith(m, rows) && |rows| > 0
    ensures HighRiskShare(m) == Percent(|HighRisk(rows, m.riskThreshold)|, |rows|)
    ensures 0.0 <= HighRiskShare(m) <= 100.0
    ensures HighRiskShare(m) == 100.0 <==> forall row :: row in rows ==> IsHighRisk(row, m.riskThreshold)
  {
    AllKeptIffFull(rows, m.riskThreshold);
  }

  lemma {:induction false} AllKeptIffFull(rows: Table, t: real)
    ensures |HighRisk(rows, t)| == |rows| <==> forall row :: row in rows ==> IsHighRisk(row, t)
  {
    if rows != [] {
      AllKeptIffFull(rows[1..], t);
      assert forall row :: row in rows <==> row == rows[0] || row in rows[1..];
      assert |HighRisk(rows[1..], t)| <= |rows[1..]|;
    }
  }

  /** Lines 385-387: the percentage of districts whose mean is present. pandas
      divides by the row count, so the table must have a row. */
  function Coverage(rows: Table): (r: real)
    requires |rows| > 0
    ensures 0.0 <= r <= 100.0
    ensures r == 100.0 <==> forall row :: row in rows ==> row.mean.Some?
    ensures r == 0.0 <==> forall row :: row in rows ==> row.mean.None?
  {
    AllPresentIffFull(rows);
    NonePresentIffEmpty(rows);
    Percent(|PresentRows(rows)|, |rows|)
  }

  lemma {:induction false} AllPresentIffFull(rows: Table)
    ensures |PresentRows(rows)| == |rows| <==> forall row :: row in rows ==> row.mean.Some?
  {
    if rows != [] {
      AllPresentIffFull(rows[1..]);
      assert forall row :: row in rows <==> row == rows[0] || row in rows[1..];
      assert |PresentRows(rows[1..])| <= |rows[1..]| by {
        MeansMembers(rows[1..]);
      }
    }
  }

  lemma NonePresentIffEmpty(rows: Table)
    ensures |PresentRows(rows)| == 0 <==> forall row :: row in rows ==> row.mean.None?
  {
    var p := PresentRows(rows);
    if p != [] {
      assert p[0] in p;
    }
  }
}
