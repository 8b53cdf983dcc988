# Friaje dashboard analytics — a Dafny model

The dashboard `app/streamlit_app.py` presents minimum-temperature zonal
statistics for the districts of Peru. Beneath its Streamlit pages there is a
small analytics layer over one table with a row per district: department,
province, district, the mean, min, max and standard deviation of the raster
temperatures, and the pixel count. This project models that layer as pure
Dafny functions over `seq<DistrictRecord>`, and it proves what each
computation promises.

The layer has these parts:

- **Loading.** `load_data` refuses an empty table, then a table that lacks
  any of the seven required columns. The missing columns are reported in
  required-list order (module `Validation`).
- **Department filter.** The "Filtro Departamental" options are `"Todos"`
  followed by the sorted, distinct department names. `"Todos"` keeps the
  whole table. Any other option keeps exactly that department's rows, in
  their original order (module `Filtering`).
- **Risk.** The high-risk threshold is the 10th percentile of the present
  means. The model uses pandas' default linear interpolation over the
  ascending values: position `h = (n-1)·q`, then `x[⌊h⌋] + (h-⌊h⌋)·(x[⌊h⌋+1]-x[⌊h⌋])`.
  A district is high-risk when its mean is present and at most the threshold.
  High-risk districts are counted per department; the chart shows the ten
  largest counts. The "most vulnerable department" is the one with the most
  high-risk districts under the national threshold of the metrics record.
  On ties it is the alphabetically first department, because `groupby`
  sorts its keys and `idxmax` takes the first maximum (modules
  `Statistics` and `Risk`).
- **Rankings.** These are:
  - the 15 coldest and the 15 warmest districts (`nsmallest` and
    `nlargest`, `keep='first'`);
  - the per-department count of present means and the mean of those means,
    ordered by that mean;
  - the eight departments with the most present means (modules `Ranking`
    and `Aggregation`).
- **Ratios.** The high-risk share of the summary record and the coverage of
  the `mean` column (module `Summary`).

## How pandas semantics are modelled

- **Missing means.** A missing (NaN) mean is `None`. It is skipped by
  `quantile`, `count` and `mean`. It fails the comparison `mean <= t`. It is
  placed last by `nsmallest` and `nlargest`.
- **Top-k and sorting.** `nsmallest` and `nlargest` with `keep='first'` are
  a stable insertion sort by the key (`Ranking.SortByKey`) followed by
  taking the first `k`. Within equal keys this keeps the original row order;
  see "## Left out" for the case of a table of at most `k` rows.
- **Empty tables.** `DataFrame.empty` holds for a table with no rows or no
  columns. `Validation.Validate` therefore answers `Empty` in both cases. The
  emptiness test comes before the column test, as in the code.
- **What the counts count.** The groupings at lines 116 and 182 apply `count`
  to the `mean` column. They therefore count present means, not rows, and a
  department whose means are all missing gets the count 0. The groupings at
  lines 191 and 298 use `size()`, which counts the high-risk rows.
- **No present mean.** With no present mean, the quantile is NaN: the model
  returns `None`, and no district is high-risk.
- **Worked example.** `RiskScenario` uses the means -5, 10 and 2. The
  interpolated 10th percentile is -5 + 0.2·(2 - (-5)) = -3.6.

## Model

| member | source | states |
|---|---|---|
| Validation.Validate | app/streamlit_app.py:80-90 | Ok exactly when there is a row and every required column is present. Empty exactly when there are no rows or no columns. Otherwise the answer is the non-empty list of absent required columns, in required-list order. |
| Validation.MissingFrom | app/streamlit_app.py:84-85 | The comprehension keeps exactly the required columns absent from the table, as an ordered selection of the required list. |
| Validation.SelectionUnique | app/streamlit_app.py:84-85 | Two ordered selections of a repetition-free list with the same members are equal. So the reported missing list is exactly determined by Validate's contract. |
| Filtering.InsertName | app/streamlit_app.py:587 | Adding a name to a sorted, distinct list keeps it sorted and distinct, and adds exactly that name. |
| Filtering.Departments | app/streamlit_app.py:587 | `sorted(unique())` is strictly ascending and holds a name exactly when some row has that department. |
| Filtering.DepartmentOptions | app/streamlit_app.py:587 | The options start with "Todos". The rest is strictly ascending and lists exactly the departments of the table. |
| Filtering.FilterDepartment | app/streamlit_app.py:591-594 | "Todos" gives the table unchanged. Any other choice keeps only rows of that department and all of them, in the original order; the length is that department's row count, at most the table's. |
| StringOrder.LessTransitive | app/streamlit_app.py:587 | Python's string order, modelled as lexicographic order by character, is transitive. |
| StringOrder.LessTotal | app/streamlit_app.py:587 | Python's string order is total on distinct strings. |
| StringOrder.StrictlyAscendingDistinct | app/streamlit_app.py:587 | A strictly ascending list has no repeated names. |
| Districts.Means | app/streamlit_app.py:190 | The non-missing means of `datos['mean']`, which the quantile runs over: no more of them than rows. |
| Districts.MeansOfPresent | app/streamlit_app.py:190 | The present means are the means of the rows that `dropna` keeps, one for one and in order. With the multiplicity lemma for `dropna`, each present mean occurs exactly as often as rows carry it. |
| Districts.MeansMembers | app/streamlit_app.py:190 | The non-missing means are exactly the present means of the rows, and there are no more of them than rows. |
| Districts.MeansPermutation | app/streamlit_app.py:190 | Reordering the rows reorders the present means and changes nothing else about them. |
| Districts.PresentRows | app/streamlit_app.py:386 | `dropna(subset=['mean'])` keeps exactly the rows with a present mean, one per present mean. |
| Districts.PresentRowsMultiplicity | app/streamlit_app.py:386 | `dropna` keeps every row with a present mean as many times as it occurs, and no other row. |
| Districts.OfDepartment | app/streamlit_app.py:592 | The boolean mask keeps exactly the rows of one department, never more rows than the table. |
| Districts.OfDepartmentMultiplicity | app/streamlit_app.py:592 | The department mask keeps every row of the department as many times as it occurs, and no other row. |
| Districts.CountOf | app/streamlit_app.py:191 | A department's `size()` count is its number of rows, never more than the table's. |
| Districts.DepartmentMeansCount | app/streamlit_app.py:182 | A department's present-mean count equals its number of rows with a present mean. |
| Districts.OfDepartmentSubsequence | app/streamlit_app.py:592 | The department mask keeps rows in their original relative order. |
| Statistics.MinOf | app/streamlit_app.py:190 | The minimum is one of the values and bounds all of them from below. |
| Statistics.MaxOf | app/streamlit_app.py:190 | The maximum is one of the values and bounds all of them from above. |
| Statistics.SumBounds | app/streamlit_app.py:182 | n values within [lo, hi] sum to between n·lo and n·hi. |
| Statistics.Average | app/streamlit_app.py:182 | The mean of a department's means lies between their minimum and maximum. |
| Statistics.SortReals | app/streamlit_app.py:190 | Sorting the values for the quantile gives an ascending permutation of them. |
| Statistics.AscendingUnique | app/streamlit_app.py:190 | Two ascending arrangements of the same values are equal, so "the sorted values" is well defined. |
| Statistics.Lerp | app/streamlit_app.py:190 | Interpolating a fraction f between two ordered values stays between them, and f = 0 gives the lower value. |
| Statistics.Rank | app/streamlit_app.py:190 | The lower neighbour's position is the whole part of (n-1)·q, a valid position among the n values. |
| Statistics.UpperRank | app/streamlit_app.py:190 | The upper neighbour's position is the next one, or the last when there is none. |
| Statistics.Interpolate | app/streamlit_app.py:190 | Linear interpolation over ascending values lies between the values at positions ⌊(n-1)·q⌋ and the next one. So it lies between the first and last value; q = 0 gives the first value and q = 1 the last. |
| Statistics.Quantile | app/streamlit_app.py:190 | `quantile(q)` lies between the sorted values at ranks ⌊(n-1)·q⌋ and the next one, and so between the minimum and maximum. |
| Statistics.CountAtMostPermutation | app/streamlit_app.py:190-191 | The number of values at most t does not depend on their order. |
| Statistics.AscendingCountAtMost | app/streamlit_app.py:190-191 | If the ascending value at position k is at most t, at least k + 1 values are at most t. |
| Statistics.SortedEnds | app/streamlit_app.py:190 | The ends of the ascending arrangement are the minimum and the maximum. |
| Statistics.QuantilePermutation | app/streamlit_app.py:190 | The quantile does not depend on the order of the values. |
| Risk.Threshold | app/streamlit_app.py:190 | There is no threshold exactly when no mean is present. Otherwise it lies between the sorted present means at ranks ⌊(n-1)/10⌋ and the next one, and so between the minimum and maximum present mean. |
| Risk.ThresholdRank | app/streamlit_app.py:190-191 | With n present means, at least ⌊(n-1)·0.1⌋ + 1 districts are high-risk: the threshold is a 10th percentile, not merely a value in range. |
| Risk.HighRiskCount | app/streamlit_app.py:191 | The number of high-risk districts is the number of present means at most the threshold. |
| Risk.ThresholdPermutation | app/streamlit_app.py:190 | Reordering the rows does not change the threshold. |
| Risk.IsHighRisk | app/streamlit_app.py:191 | The test `mean <= t` used at lines 191 and 298: a missing mean compares false, and a present mean is high-risk exactly when it is at most t. |
| Risk.HighRisk | app/streamlit_app.py:191 | `datos[datos['mean'] <= umbral]` keeps exactly the rows whose present mean is at most the threshold, in their original order. |
| Risk.HighRiskMultiplicity | app/streamlit_app.py:191 | The mask keeps every high-risk row as many times as it occurs, and no other row. |
| Risk.HighRiskNonEmpty | app/streamlit_app.py:190-191 | Once some mean is present, every row at the minimum mean is high-risk, so the high-risk table is not empty. |
| Risk.HighRiskOfDepartment | app/streamlit_app.py:191 | Filtering by department and then by risk gives the same as risk then department. |
| Risk.RiskByDepartment | app/streamlit_app.py:191-194 | The risk chart has min(10, number of departments with a high-risk district) bars, in non-increasing order of size, each taken from the high-risk group sizes. |
| Risk.RiskByDepartmentExcluded | app/streamlit_app.py:191-194 | The chart keeps the largest counts: no department left out has more high-risk districts than one shown. |
| Risk.RiskByDepartmentNonEmpty | app/streamlit_app.py:191-194 | The chart has a bar once some district is high-risk. |
| Risk.RiskByDepartmentSingle | app/streamlit_app.py:191-194 | A one-department table with a high-risk district charts as that department with its high-risk count. |
| Risk.RiskByDepartmentEntries | app/streamlit_app.py:191-194 | Each bar of the risk chart is a department with its high-risk district count, which is at least 1. |
| Risk.SingleDepartmentGroups | app/streamlit_app.py:191 | Grouping rows of one department gives that department with the row count, or nothing for no rows. |
| Risk.RiskByDepartmentAsWritten | app/streamlit_app.py:190-194 | As written, the threshold is recomputed over the table shown. So the chart is empty exactly when no mean is present. A one-department view with a present mean always shows that department with at least one high-risk district. |
| Risk.DepartmentRiskChart | app/streamlit_app.py:190-194 | Against the national threshold, a department view's chart is that department's national high-risk count, or empty when it has none. The "Todos" view is the national chart. |
| Risk.FirstMax | app/streamlit_app.py:298 | `idxmax` finds a largest size, and every earlier size is strictly smaller, so it is the first maximum. |
| Risk.MostAffected | app/streamlit_app.py:298-299 | The reported department has a high-risk count of at least 1, and no department has more. The reported number is that count. Any department tied with it is alphabetically later. It needs a high-risk district, as `idxmax` raises without one. |
| Risk.MostVulnerable | app/streamlit_app.py:298-299 | The card with the empty case handled: nothing exactly when no district is high-risk, in which case every department's count is 0; otherwise the most affected department. |
| Aggregation.SizesOver | app/streamlit_app.py:191 | One group size per listed department, holding that department's row count. |
| Aggregation.GroupSizes | app/streamlit_app.py:191 | `groupby().size()` lists the departments in ascending order, each with its row count, which is at least 1. |
| Aggregation.AbsentDepartmentCount | app/streamlit_app.py:191 | A department that is not among the groups has no rows. |
| Aggregation.CountSumCoversAll | app/streamlit_app.py:191 | Counting rows per department over a distinct list that covers every row accounts for every row once. |
| Aggregation.GroupSizesTotal | app/streamlit_app.py:191 | The group sizes sum to the number of rows grouped. |
| Aggregation.StatsOf | app/streamlit_app.py:182 | A department's count is its number of present means. Its mean of means exists exactly when that count is positive, and then lies between their minimum and maximum. |
| Aggregation.StatsOver | app/streamlit_app.py:182 | One statistics entry per listed department. |
| Aggregation.GroupStats | app/streamlit_app.py:182 | `agg(['count','mean'])` gives one entry per department, in ascending order. |
| Aggregation.GroupStatsTotal | app/streamlit_app.py:182 | The per-department counts sum to the number of present means. |
| Aggregation.StatsByMean | app/streamlit_app.py:182 | `sort_values('mean')` gives a permutation of the department statistics, ascending by mean of means, with missing means last. |
| Aggregation.TopDepartments | app/streamlit_app.py:116 | `nlargest(8)` of the counts has min(8, number of departments) entries. It is non-increasing by count and drawn from the department statistics. |
| Aggregation.TopDepartmentsExcluded | app/streamlit_app.py:116 | No department left out of the eight has a larger count than one kept. |
| Ranking.Insert | app/streamlit_app.py:164 | Inserting one element adds exactly that element. |
| Ranking.InsertSorted | app/streamlit_app.py:164 | Inserting into an ordered list keeps it ordered. |
| Ranking.InsertKeyFilter | app/streamlit_app.py:164 | Insertion places the new element before the elements already present with the same key. The sort inserts each element into the sorted rest of the list, so this keeps equal keys in input order. |
| Ranking.KeyFilterConcat | app/streamlit_app.py:164 | Selecting the elements with one key distributes over concatenation. |
| Ranking.SortByKey | app/streamlit_app.py:164-173 | The sort is an ordered permutation of its input. |
| Ranking.SortByKeyStable | app/streamlit_app.py:164-173 | The sort is stable: elements with equal keys keep their original order. |
| Ranking.TopK | app/streamlit_app.py:164-173 | Top-k has min(k, n) elements, is ordered by key and is drawn from the input. |
| Ranking.TopKExcluded | app/streamlit_app.py:164-173 | No element left out of the top k precedes an element kept. |
| Ranking.TopKStable | app/streamlit_app.py:164-173 | Among equal keys, top-k keeps the first occurrences in input order (`keep='first'`). |
| Ranking.NSmallest | app/streamlit_app.py:164 | The 15 coldest rows number min(15, n). They ascend by mean, with missing means last, and are drawn from the table. |
| Ranking.NSmallestExcluded | app/streamlit_app.py:164 | Every row left out has a mean at least that of every kept row, or no mean. A row without a mean is kept only if every row left out also lacks one. |
| Ranking.NSmallestKeepsFirst | app/streamlit_app.py:164 | Among rows with equal means, the kept ones are the first in table order. |
| Ranking.NLargest | app/streamlit_app.py:173 | The 15 warmest rows number min(15, n). They descend by mean, with missing means last, and are drawn from the table. |
| Ranking.NLargestExcluded | app/streamlit_app.py:173 | Every row left out has a mean at most that of every kept row, or no mean. A row without a mean is kept only if every row left out also lacks one. |
| Ranking.NLargestKeepsFirst | app/streamlit_app.py:173 | Among rows with equal means, the kept ones are the first in table order. |
| Summary.Percent | app/streamlit_app.py:225 | `part/whole*100` is non-negative, and at most 100 when part ≤ whole. It is 0 exactly when part is 0 and 100 exactly when part is whole. |
| Summary.HighRiskShare | app/streamlit_app.py:225 | The high-risk share of the metrics record is a percentage, at most 100 when the high-risk total does not exceed the district total. |
| Summary.ShareOfConsistentMetrics | app/streamlit_app.py:225 | For a record that agrees with the table, the share is the percentage of high-risk rows. It is 100 exactly when every row is high-risk. |
| Summary.AllKeptIffFull | app/streamlit_app.py:191 | The high-risk table is as long as the table exactly when every row is high-risk. |
| Summary.Coverage | app/streamlit_app.py:385-387 | Coverage lies in [0, 100]. It is 100 exactly when no mean is missing and 0 exactly when every mean is missing. |
| Summary.AllPresentIffFull | app/streamlit_app.py:386 | Dropping missing means keeps every row exactly when no mean is missing. |
| Summary.NonePresentIffEmpty | app/streamlit_app.py:386 | Dropping missing means leaves nothing exactly when every mean is missing. |
| RiskScenario.SampleInterpolate | app/streamlit_app.py:190 | The interpolated 10th percentile of -5, 2, 10 is -3.6. |
| RiskScenario.SampleThreshold | app/streamlit_app.py:190 | The sample table's threshold is -3.6. |
| RiskScenario.SampleNationalHighRisk | app/streamlit_app.py:191 | Under -3.6 only the X district at -5 is high-risk, and Y has none. |
| RiskScenario.FilteredThresholdDiverges | app/streamlit_app.py:190-191 | Filtered to Y, the chart as written shows Y with one high-risk district. Against the national threshold it shows none. |
| RiskScenario.FilteredViewHasNoHighRisk | app/streamlit_app.py:298 | The Y view has no district at or below the national threshold -3.6. So the card has nothing to report, and `idxmax` as written has nothing to take. |

## Left out

- Page rendering is left out as presentation only: Streamlit markup, metrics, columns, tabs, sidebar widgets and CSS (lines 16-69 and the page bodies).
- Plotly figure construction is left out as opaque library calls. This covers the traces, histograms, scatter plots and box plots (lines 98-151 and 153-202 apart from the data expressions).
- The two figure loops at lines 119-136 are left out, because they only add traces. This includes the `len(dept_temps) > 5` test at line 130.
- The `isin(top_depts)` mask at line 117 is left out; it only feeds the box-plot traces.
- File reading in `load_data` is left out; I/O is not modelled. This covers `read_csv`, `json.load`, the exception handlers at lines 75-77 and 91-96, and the `@st.cache_data` memoisation at line 71. The table comes in as its column names and row count, or as its rows.
- The metrics record is a parameter (`Summary.SummaryMetrics`), because it is read from a file. The model does not check that it agrees with the table. `Summary.ConsistentWith` names the hypothesis under which its figures match the table.
- `st.image` for the static map (lines 414-423) and the CSV export with `to_csv` (line 430) are left out. They are I/O and serialisation.
- The policy text and costs (lines 439-558) are left out; they are static content.
- `datos['std'].mean()` (line 242) and `datos['count'].mean()` (line 392) are left out. They are plain column means whose only use is display.
- IEEE floating point, NaN propagation beyond a missing mean, and the formatting of numbers (`:.1f`, `:,`) are left out. Temperatures are mathematical reals.
- Risk.MostAffected: requires a non-empty high-risk table. pandas raises on `idxmax` of an empty series. The program does reach that case, in a department view with no district at or below the national threshold (see Findings). Risk.MostVulnerable models the card with that case handled.
- Summary.HighRiskShare: requires a non-zero district total. Line 225 raises `ZeroDivisionError` for a metrics record with `total_distritos` 0, and that error path is not modelled.
- Ranking.NSmallest and Ranking.NLargest: for a table of at most 15 rows, pandas takes a shortcut, `sort_values(...).head(n)`. The default quicksort does not promise to keep ties in order, and a department view can be that small. The model keeps ties in table order in every case, so NSmallestKeepsFirst and NLargestKeepsFirst state more than pandas promises on that path.
- Aggregation.StatsByMean: `sort_values` uses quicksort, which pandas does not promise to be stable. The model sorts stably, so equal means stay in department order. The contract does not claim any order among equal means.
- Risk.RiskByDepartment: the same holds for `sort_values(ascending=False)` at line 191. The contract does not claim any order among equal high-risk counts.
- Aggregation.TopDepartments: `nlargest(8)` keeps the first of equal counts. Here the first is the alphabetically first department, because the groups are in ascending order. The model keeps that order through Ranking.TopKStable, but the contract of TopDepartments itself does not state the order of ties by name.

## Findings

| source | as written | input that shows it | evidently intended | confidence | as-written member | corrected member |
|---|---|---|---|---|---|---|
| app/streamlit_app.py:190-191 | The risk chart recomputes the 10th-percentile threshold over the table it is shown. Under a department filter that is the department's own percentile, so a department always shows some high-risk districts. Meanwhile, the summary page (line 298) uses the national threshold of the metrics record. | Districts X/A at -5, X/B at 10 and Y/C at 2, filtered to Y. The national threshold is -3.6 and Y has no high-risk district, yet the chart shows Y with 1. | The chart is computed against the national threshold, as at line 298. | medium, not executed | Risk.RiskByDepartmentAsWritten, RiskScenario.FilteredThresholdDiverges | Risk.DepartmentRiskChart |
| app/streamlit_app.py:298-299 | `main` passes the department-filtered table to the summary page (line 598). There, `idxmax` and `max` are taken over that table's high-risk group sizes under the national threshold. A department with no district at or below that threshold gives an empty series, and `idxmax` raises. | The same three districts, department Y selected: its only district has mean 2, above the national threshold -3.6. | The card reports that the view has no high-risk district instead of failing. | high, not executed | Risk.MostAffected, RiskScenario.FilteredViewHasNoHighRisk | Risk.MostVulnerable |
