# Performance thresholds and the sports list, in Dafny

This project models the scoring core of a sports-performance dashboard.

- **Built-in thresholds.** Each of nine performance metrics (sprint times, agility, force, chin-ups, jumps, a throw and
  a reactive-strength index) has four intervals, labelled Poor, Fair, Good and Excellent.
- **Scoring a value.** A value is scored against those intervals, or against a caller-supplied table of
  `Metric`/`Score`/`Min`/`Max` rows. The first half-open interval `[Min, Max)` that holds the value wins.
  Otherwise the answer is "Unknown".
- **The editable table.** The built-in thresholds are flattened into the table the user edits.
- **Score columns.** A performance table gets one `<metric>_Score` column for every built-in metric it has.
  The column is appended at the end, or overwritten in place if the table already has it.
- **Saving the sports list.** The save path refuses an empty list and a null or empty name. Otherwise it
  strips every name, drops exact duplicates (keeping the first) and sorts the names.

Modules:

- `Thresholds` (`thresholds.dfy`): the built-in table, `calculate_score`, and the proof that every built-in
  metric's intervals tile `[0, ∞)`.
- `ThresholdTable` (`threshold_table.dfy`): `get_threshold_df`, written as the source's nested loop and
  proved equal to a flattening function. Scoring against the flattened table gives the built-in answers.
- `ScoredFrame` (`scored_frame.dfy`): `apply_thresholds` on a table of named columns and keyed rows.
- `Lexicographic` (`lexicographic.dfy`): the order Python compares `str` in, and an insertion sort.
- `SportsList` (`sports_list.dfy`): `str.strip()`, `drop_duplicates(keep="first")` and the save path.
- `Wrappers` (`wrappers.dfy`): `Option`.

Representation choices:

- Values and bounds are `real`. An upper bound is `Finite(x)` or `Inf`; `Inf` stands for both
  `float('inf')` and the '∞' cell of an edited table.
- A caller-supplied table is `Some(rows)` and its absence is `None`. That is the `session_state_df is None`
  branch, which falls back to the built-in table.
- A table cell in `ScoredFrame` is `Num(value)` or `Text(label)`. A sports-name cell is `Option<string>`,
  with `None` for a null cell.

Where the code and its comments disagree, this model follows the code:

- The comment at src/pages/sports_management.py:51 says duplicates are removed case-insensitively. The
  code compares stripped names exactly, so "Rugby" and "rugby" are both kept (`CaseSensitiveDuplicates`).
- The guard at line 48 looks at the names before they are stripped. A name made only of whitespace passes
  it and is saved as "". Saving that list again is then refused (`WhitespaceNameSavedEmpty`,
  `ResaveOfBlankRejected`).

## Model

| member | source | states |
|---|---|---|
| Thresholds.Lookup | src/thresholds.py:4-14 | `DEFAULT_THRESHOLDS[metric]` for a built-in metric: the intervals of the first entry with that name (the names are distinct, `DefaultMetricsDistinct`) |
| Thresholds.DefaultMetricsDistinct | src/thresholds.py:4-14 | the nine built-in metric names are pairwise distinct, as dictionary keys are |
| Thresholds.ScanRanges | src/thresholds.py:29-31 | None exactly when no interval holds the value; otherwise the label of the first interval (in table order) that holds it |
| Thresholds.ScanRows | src/thresholds.py:20-25 | None exactly when no row of the metric holds the value; otherwise the score of the first such row; rows of other metrics are never used |
| Thresholds.CalculateScore | src/thresholds.py:16-32 | with a caller table: the score of its first matching row, "Unknown" when none matches; without one: the label of the first built-in interval that holds the value, "Unknown" when none does |
| Thresholds.DefaultTablesPartition | src/thresholds.py:4-13 | every built-in metric has four intervals labelled Poor, Fair, Good, Excellent that tile `[0, ∞)` with no gap and no overlap |
| Thresholds.DefaultScore | src/thresholds.py:26-32 | a non-negative value of a built-in metric falls in exactly one interval and gets one of the four labels, never "Unknown"; a negative value gets "Unknown" |
| Thresholds.CmjBoundaries | src/thresholds.py:10 | for CMJ (in): 24.99 is Poor, 25 (a shared boundary) is Fair, 29 is Excellent |
| Thresholds.CustomTableNoFallback | src/thresholds.py:18-25 | a caller table with no row for the metric gives "Unknown", with no fallback to the built-in intervals |
| Thresholds.RowBoundaries | src/thresholds.py:22-24 | a row holds its own `Min` (when its interval is not empty), never its finite `Max`, and with `Max` '∞' holds every value from `Min` up |
| Thresholds.FirstRowWins | src/thresholds.py:21-25 | when caller rows overlap, the first matching row in table order decides the score |
| ThresholdTable.GetThresholdTable | src/thresholds.py:34-46 | the nested loop builds exactly the flattened table: metrics in order, each one's four rows in order |
| ThresholdTable.DefaultTableLayout | src/thresholds.py:34-46 | the built-in table flattens to 36 rows; row 4i+k holds metric i, label k and interval k's bounds |
| ThresholdTable.ScanFlatten | src/thresholds.py:20-31 | with distinct metric names, scanning the flattened rows for a metric equals looking the metric up and scanning its intervals; a missing metric gives no match |
| ThresholdTable.FlattenedDefaultsScoreAlike | src/thresholds.py:16-46 | passing the unedited flattened table as the caller table scores every built-in metric and value as the built-in path does, and any other metric as "Unknown" |
| ScoredFrame.ApplyThresholds | src/thresholds.py:48-56 | the result is the scored table: the input with each built-in metric's score column written, in built-in metric order |
| ScoredFrame.ScoreMetrics | src/thresholds.py:50-55 | after the loop over a list of built-in metrics, the columns and every row are those the metrics, processed in order, produce |
| ScoredFrame.ScoredColumnsOf | src/thresholds.py:50-55 | row count kept; original columns kept in order as a prefix; one `<metric>_Score` column for each built-in metric present; it is appended at the end, or overwritten in place if the input already has it |
| ScoredFrame.ScoredCells | src/thresholds.py:52-55 | each score cell is `calculate_score` of that row's metric value with the same caller table; every other original cell is unchanged |
| ScoredFrame.ScoredScorable | src/thresholds.py:48-56 | the result is again a well-formed table whose metric cells are the input's |
| ScoredFrame.ScoredIdempotent | src/thresholds.py:48-56 | applying the thresholds to an already scored table gives the same table |
| ScoredFrame.ScoreColumnInjective | src/thresholds.py:53 | distinct metrics get distinct score-column names |
| Lexicographic.LessEqTotal | src/pages/sports_management.py:56 | any two names are ordered one way or the other |
| Lexicographic.LessEqAntisymmetric | src/pages/sports_management.py:56 | names ordered both ways are equal |
| Lexicographic.LessEqTransitive | src/pages/sports_management.py:56 | the name order is transitive |
| Lexicographic.Sort | src/pages/sports_management.py:56 | the result is sorted by name and is a permutation of the input |
| Lexicographic.SortedUnique | src/pages/sports_management.py:56 | two sorted permutations of the same names are equal, so the order of the sort's ties cannot matter |
| SportsList.Strip | src/pages/sports_management.py:52 | the result is a slice of the name with only whitespace removed before and after it, and it neither starts nor ends with whitespace |
| SportsList.StripTrimmed | src/pages/sports_management.py:52 | stripping a name with no surrounding whitespace leaves it unchanged |
| SportsList.StripAllSpace | src/pages/sports_management.py:52 | a name made only of whitespace strips to "" |
| SportsList.DropDuplicates | src/pages/sports_management.py:53 | no name appears twice, no name is added, and every input name is still present |
| SportsList.DropDuplicatesKeepsFirst | src/pages/sports_management.py:53 | kept names appear in the order of their first occurrences in the input |
| SportsList.DropDuplicatesOfDistinct | src/pages/sports_management.py:53 | a list without duplicates is left as it is |
| SportsList.SaveSports | src/pages/sports_management.py:48-56 | refused exactly when the list is empty or holds a null or "" name; otherwise the saved list is non-empty, no longer than the input, trimmed, without duplicates, sorted, and holds exactly the stripped input names |
| SportsList.WhitespaceNameSavedEmpty | src/pages/sports_management.py:48-52 | a whitespace-only name passes the guard and is saved as "" |
| SportsList.ResaveOfBlankRejected | src/pages/sports_management.py:48-52 | saving again a list saved from a whitespace-only name is refused |
| SportsList.CaseSensitiveDuplicates | src/pages/sports_management.py:51-56 | two names that differ after stripping (for example only in case) are both kept, in name order |
| SportsList.SaveIdempotent | src/pages/sports_management.py:48-56 | saving a saved list again (with no "" in it) gives the same list |

## Left out

- The Streamlit page around the save path is not modelled: widgets, buttons, messages, the editor's column
  configuration and the `try`/`except` around saving. Writing the CSV file is not modelled either; the
  model returns the list that would be written.
- The sports table is modelled as its `Name` column only. Any other column is carried along by pandas and is
  not modelled.
- Floating point is not modelled. Values are exact reals: no NaN, no rounding, and `float('inf')` is a
  separate bound.
- Parsing is not modelled. `float(value)`, `float(row['Min'])` and `float(row['Max'])` on a malformed cell
  raise in the source; the model requires numeric cells (`Scorable`) and holds `Min` and `Max` as numbers.
- Thresholds.CalculateScore: a caller row whose `Score` is literally "Unknown" cannot be told apart from
  no match. The sentinel is returned as the source returns it.
- ThresholdTable.GetThresholdTable: the display string `str(max_val)` for a finite upper bound is not
  modelled; the bound is kept as the number it displays.
- The pandas DataFrame built by `get_threshold_df` is a sequence of rows here; its index is not modelled.
- ScoredFrame.ApplyThresholds: pandas index alignment is not modelled, nor the copy being a separate
  object (values are immutable here). Nor is the case of a table with a metric column but a caller table
  without `Metric`, `Min` or `Max` columns, where pandas raises.
- Lexicographic.Sort: it is an insertion sort, not the algorithm pandas uses. `SortedUnique` shows that this
  does not matter once duplicates are gone.
