/**
 * `apply_thresholds` (src/thresholds.py): a copy of a performance table with one `<metric>_Score`
 * column for every built-in metric that is one of its columns.
 */
module ScoredFrame {
  import opened Wrappers
  import opened Thresholds

  /** A table cell: a metric value or a score label. */
  datatype Cell = Num(value: real) | Text(text: string)

  /** One table row, keyed by column name. */
  type Record = map<string, Cell>

  /** A table: its column names in order and its rows. */
  datatype Frame = Frame(columns: seq<string>, rows: seq<Record>)

  /** The name of the column that holds the labels of `metric`. */
  function ScoreColumn(metric: string): string {
    metric + "_Score"
  }

  predicate Distinct(cols: seq<string>) {
    forall i, j :: 0 <= i < j < |cols| ==> cols[i] != cols[j]
  }

  /** Column names are distinct and every row has exactly the table's columns. */
  ghost predicate WellFormed(df: Frame) {
    Distinct(df.columns) && forall k :: 0 <= k < |df.rows| ==> forall c :: c in df.rows[k] <==> c in df.columns
  }

  /** What `apply_thresholds` needs of its input: a well-formed table whose built-in metric columns hold
      numbers (`float(value)` raises otherwise). */
  ghost predicate Scorable(df: Frame) {
    WellFormed(df) &&
    forall k, m :: 0 <= k < |df.rows| && m in DefaultMetrics() && m in df.rows[k] ==> df.rows[k][m].Num?
  }

  /** Assigning a column: an existing column keeps its place, a new one goes last. */
  function AddColumn(cols: seq<string>, c: string): seq<string> {
    if c in cols then cols else cols + [c]
  }

  /** The columns after processing the metrics `ms` in order, given the input's columns `cols`. */
  function ScoredColumns(cols: seq<string>, ms: seq<string>): seq<string> {
    if ms == [] then cols
    else
      var done := ScoredColumns(cols, ms[..|ms| - 1]);
      var m := ms[|ms| - 1];
      if m in cols then AddColumn(done, ScoreColumn(m)) else done
  }

  /** One row after processing the metrics `ms` in order; every label is computed from the input row. */
  function ScoreRow(row: Record, ms: seq<string>, custom: Option<seq<Row>>): Record
    requires forall m :: m in ms ==> m in DefaultMetrics()
    requires forall m :: m in ms && m in row ==> row[m].Num?
  {
    if ms == [] then row
    else
      var done := ScoreRow(row, ms[..|ms| - 1], custom);
      var m := ms[|ms| - 1];
      if m in row then done[ScoreColumn(m) := Text(CalculateScore(row[m].value, m, custom))] else done
  }

  /** The table `apply_thresholds(df, session_state_df)` returns. */
  function Scored(df: Frame, custom: Option<seq<Row>>): Frame
    requires Scorable(df)
  {
    Frame(ScoredColumns(df.columns, DefaultMetrics()),
          seq(|df.rows|, k requires 0 <= k < |df.rows| => ScoreRow(df.rows[k], DefaultMetrics(), custom)))
  }

  /** `apply_thresholds`: copy the table, then for each built-in metric among its columns, in table
      order, write that metric's labels into its score column. */
  method ApplyThresholds(df: Frame, custom: Option<seq<Row>>) returns (scored: Frame)
    requires Scorable(df)
    ensures scored == Scored(df, custom)
  {
    scored := ScoreMetrics(df, DefaultMetrics(), custom);
    ScoredRows(df, custom, scored.rows);
  }

  /** The loop of `apply_thresholds` over the metrics `ms`, in order. */
  method ScoreMetrics(df: Frame, ms: seq<string>, custom: Option<seq<Row>>) returns (scored: Frame)
    requires Scorable(df)
    requires forall m :: m in ms ==> m in DefaultMetrics()
    ensures scored.columns == ScoredColumns(df.columns, ms)
    ensures |scored.rows| == |df.rows|
    ensures forall k :: 0 <= k < |df.rows| ==> scored.rows[k] == ScoreRow(df.rows[k], ms, custom)
  {
    scored := df;
    var i := 0;
    while i < |ms|
      invariant 0 <= i <= |ms|
      invariant scored.columns == ScoredColumns(df.columns, ms[..i])
      invariant |scored.rows| == |df.rows|
      invariant forall m :: m in ms[..i] ==> m in ms
      invariant forall k :: 0 <= k < |df.rows| ==> scored.rows[k] == ScoreRow(df.rows[k], ms[..i], custom)
    {
      var m := ms[i];
      var done := ms[..i];
      assert ms[..i + 1] == done + [m];
      ScoredColumnsSnoc(df.columns, done, m);
      ScoreStep(df, scored.rows, done, m, custom);
      if m in df.columns {
        scored := Frame(AddColumn(scored.columns, ScoreColumn(m)), Relabel(scored.rows, df.rows, m, custom));
      }
      i := i + 1;
    }
    assert ms[..i] == ms;
  }

  /** Rows that agree with `ScoreRow` for every built-in metric are the rows of `Scored`. */
  lemma ScoredRows(df: Frame, custom: Option<seq<Row>>, rows: seq<Record>)
    requires Scorable(df) && |rows| == |df.rows|
    requires forall k :: 0 <= k < |df.rows| ==> rows[k] == ScoreRow(df.rows[k], DefaultMetrics(), custom)
    ensures rows == Scored(df, custom).rows
  {
  }

  /** The rows after writing the labels of `m`, computed from the input rows `src`, into `rows`. */
  function Relabel(rows: seq<Record>, src: seq<Record>, m: string, custom: Option<seq<Row>>): (r: seq<Record>)
    requires |rows| == |src|
    requires m in DefaultMetrics()
    requires forall k :: 0 <= k < |src| ==> m in src[k] && src[k][m].Num?
    ensures |r| == |rows|
  {
    seq(|rows|, k requires 0 <= k < |rows| => rows[k][ScoreColumn(m) := Text(CalculateScore(src[k][m].value, m, custom))])
  }

  /** One step of `ApplyThresholds` takes the rows for the metrics `done` to those for `done + [m]`. */
  lemma ScoreStep(df: Frame, rows: seq<Record>, done: seq<string>, m: string, custom: Option<seq<Row>>)
    requires Scorable(df) && |rows| == |df.rows|
    requires m in DefaultMetrics() && forall m' :: m' in done ==> m' in DefaultMetrics()
    requires forall k :: 0 <= k < |df.rows| ==> rows[k] == ScoreRow(df.rows[k], done, custom)
    ensures m in df.columns ==> forall k :: 0 <= k < |df.rows| ==> m in df.rows[k] && df.rows[k][m].Num?
    ensures m in df.columns ==> forall k :: 0 <= k < |df.rows| ==> Relabel(rows, df.rows, m, custom)[k] == ScoreRow(df.rows[k], done + [m], custom)
    ensures m !in df.columns ==> forall k :: 0 <= k < |df.rows| ==> rows[k] == ScoreRow(df.rows[k], done + [m], custom)
  {
  }

  lemma ScoredColumnsSnoc(cols: seq<string>, ms: seq<string>, m: string)
    ensures ScoredColumns(cols, ms + [m]) == if m in cols then AddColumn(ScoredColumns(cols, ms), ScoreColumn(m)) else ScoredColumns(cols, ms)
  {
    assert (ms + [m])[..|ms|] == ms;
  }

  lemma ScoreRowSnoc(row: Record, ms: seq<string>, m: string, custom: Option<seq<Row>>)
    requires forall m' :: m' in ms + [m] ==> m' in DefaultMetrics()
    requires forall m' :: m' in ms + [m] && m' in row ==> row[m'].Num?
    ensures ScoreRow(row, ms + [m], custom) ==
              if m in row then ScoreRow(row, ms, custom)[ScoreColumn(m) := Text(CalculateScore(row[m].value, m, custom))]
              else ScoreRow(row, ms, custom)
  {
    assert (ms + [m])[..|ms|] == ms;
  }

  // ---- Score column names ----

  lemma ScoreColumnInjective(a: string, b: string)
    requires ScoreColumn(a) == ScoreColumn(b)
    ensures a == b
  {
    assert |a| == |b|;
    assert a == ScoreColumn(a)[..|a|] && b == ScoreColumn(b)[..|b|];
  }

  /** No built-in metric is itself the score column of a built-in metric: every score column ends in 'e',
      no metric name does. */
  lemma ScoreColumnsAreNotMetrics()
    ensures forall m, m' :: m in DefaultMetrics() && m' in DefaultMetrics() ==> ScoreColumn(m) != m'
  {
    var ms := DefaultMetrics();
    assert forall j :: 0 <= j < |ms| ==> |ms[j]| > 0 && ms[j][|ms[j]| - 1] != 'e';
    forall m, m' | m in ms && m' in ms ensures ScoreColumn(m) != m' {
      var c := ScoreColumn(m);
      assert c[|c| - 1] == 'e';
    }
  }

  // ---- Columns ----

  lemma {:induction false} ScoredColumnsShape(cols: seq<string>, ms: seq<string>)
    ensures |ScoredColumns(cols, ms)| >= |cols| && ScoredColumns(cols, ms)[..|cols|] == cols
    ensures forall c :: c in ScoredColumns(cols, ms) <==> c in cols || exists m :: m in ms && m in cols && c == ScoreColumn(m)
    ensures Distinct(cols) ==> Distinct(ScoredColumns(cols, ms))
  {
    if ms != [] {
      var init := ms[..|ms| - 1];
      ScoredColumnsShape(cols, init);
      forall c ensures c in ScoredColumns(cols, ms) <==> c in cols || exists m :: m in ms && m in cols && c == ScoreColumn(m) {
        if c in ScoredColumns(cols, ms) && c !in cols && c !in ScoredColumns(cols, init) {
          assert c == ScoreColumn(ms[|ms| - 1]);
        }
        if exists m :: m in ms && m in cols && c == ScoreColumn(m) {
          var m :| m in ms && m in cols && c == ScoreColumn(m);
          if m != ms[|ms| - 1] { assert m in init; }
        }
      }
    }
  }

  /** Nothing to add: every present metric already has its score column. */
  lemma {:induction false} ScoredColumnsFixed(cols: seq<string>, ms: seq<string>)
    requires forall m :: m in ms && m in cols ==> ScoreColumn(m) in cols
    ensures ScoredColumns(cols, ms) == cols
  {
    if ms != [] {
      ScoredColumnsFixed(cols, ms[..|ms| - 1]);
    }
  }

  // ---- Rows ----

  /** The keys of a scored row: its own and the score column of each present metric. */
  lemma {:induction false} ScoreRowKeys(row: Record, ms: seq<string>, custom: Option<seq<Row>>)
    requires forall m :: m in ms ==> m in DefaultMetrics()
    requires forall m :: m in ms && m in row ==> row[m].Num?
    ensures forall c :: c in ScoreRow(row, ms, custom) <==> c in row || exists m :: m in ms && m in row && c == ScoreColumn(m)
  {
    if ms != [] {
      var init := ms[..|ms| - 1];
      var last := ms[|ms| - 1];
      ScoreRowKeys(row, init, custom);
      forall c ensures c in ScoreRow(row, ms, custom) <==> c in row || exists m :: m in ms && m in row && c == ScoreColumn(m) {
        if exists m :: m in ms && m in row && c == ScoreColumn(m) {
          var m :| m in ms && m in row && c == ScoreColumn(m);
          if m != last { assert m in init; }
        }
      }
    }
  }

  /** The score column of each present metric holds `calculate_score` of the row's metric value. */
  lemma {:induction false} ScoreRowAt(row: Record, ms: seq<string>, custom: Option<seq<Row>>, m: string)
    requires forall m :: m in ms ==> m in DefaultMetrics()
    requires forall m :: m in ms && m in row ==> row[m].Num?
    requires m in ms && m in row
    ensures ScoreColumn(m) in ScoreRow(row, ms, custom)
    ensures ScoreRow(row, ms, custom)[ScoreColumn(m)] == Text(CalculateScore(row[m].value, m, custom))
  {
    var init := ms[..|ms| - 1];
    var last := ms[|ms| - 1];
    if m != last {
      assert m in init;
      ScoreRowAt(row, init, custom, m);
      if last in row && ScoreColumn(m) == ScoreColumn(last) { ScoreColumnInjective(m, last); }
    }
  }

  /** Every other cell of the row is unchanged. */
  lemma {:induction false} ScoreRowKeeps(row: Record, ms: seq<string>, custom: Option<seq<Row>>, c: string)
    requires forall m :: m in ms ==> m in DefaultMetrics()
    requires forall m :: m in ms && m in row ==> row[m].Num?
    requires c in row && forall m :: m in ms && m in row ==> c != ScoreColumn(m)
    ensures c in ScoreRow(row, ms, custom) && ScoreRow(row, ms, custom)[c] == row[c]
  {
    if ms != [] {
      ScoreRowKeeps(row, ms[..|ms| - 1], custom, c);
    }
  }

  /** A row after scoring: its keys, the label under each present metric's score column, and every other
      cell unchanged. */
  lemma ScoreRowShape(row: Record, ms: seq<string>, custom: Option<seq<Row>>)
    requires forall m :: m in ms ==> m in DefaultMetrics()
    requires forall m :: m in ms && m in row ==> row[m].Num?
    ensures forall c :: c in ScoreRow(row, ms, custom) <==> c in row || exists m :: m in ms && m in row && c == ScoreColumn(m)
    ensures forall m :: m in ms && m in row ==>
              ScoreRow(row, ms, custom)[ScoreColumn(m)] == Text(CalculateScore(row[m].value, m, custom))
    ensures forall c :: c in row && (forall m :: m in ms && m in row ==> c != ScoreColumn(m)) ==>
              ScoreRow(row, ms, custom)[c] == row[c]
  {
    ScoreRowKeys(row, ms, custom);
    forall m | m in ms && m in row
      ensures ScoreRow(row, ms, custom)[ScoreColumn(m)] == Text(CalculateScore(row[m].value, m, custom))
    {
      ScoreRowAt(row, ms, custom, m);
    }
    forall c | c in row && (forall m :: m in ms && m in row ==> c != ScoreColumn(m))
      ensures ScoreRow(row, ms, custom)[c] == row[c]
    {
      ScoreRowKeeps(row, ms, custom, c);
    }
  }

  /** A row whose every present metric already carries its label is left as it is. */
  lemma {:induction false} ScoreRowFixed(row: Record, ms: seq<string>, custom: Option<seq<Row>>)
    requires forall m :: m in ms ==> m in DefaultMetrics()
    requires forall m :: m in ms && m in row ==> row[m].Num?
    requires forall m :: m in ms && m in row ==>
               ScoreColumn(m) in row && row[ScoreColumn(m)] == Text(CalculateScore(row[m].value, m, custom))
    ensures ScoreRow(row, ms, custom) == row
  {
    if ms != [] {
      ScoreRowFixed(row, ms[..|ms| - 1], custom);
    }
  }

  // ---- The table ----

  /** `apply_thresholds` keeps the row count and the original columns, in order, as a prefix, and adds
      `<metric>_Score` exactly for the built-in metrics among the columns. */
  lemma ScoredColumnsOf(df: Frame, custom: Option<seq<Row>>)
    requires Scorable(df)
    ensures var out := Scored(df, custom);
      && |out.rows| == |df.rows|
      && |out.columns| >= |df.columns| && out.columns[..|df.columns|] == df.columns
      && (forall c :: c in out.columns <==>
            c in df.columns || exists m :: m in DefaultMetrics() && m in df.columns && c == ScoreColumn(m))
  {
    ScoredColumnsShape(df.columns, DefaultMetrics());
  }

  /** Each new cell is `calculate_score` of that row's metric value, and every original cell outside the
      score columns written is unchanged. */
  lemma ScoredCells(df: Frame, custom: Option<seq<Row>>, k: int)
    requires Scorable(df) && 0 <= k < |df.rows|
    ensures forall m :: m in DefaultMetrics() && m in df.columns ==>
              && ScoreColumn(m) in Scored(df, custom).rows[k] && m in df.rows[k] && df.rows[k][m].Num?
              && Scored(df, custom).rows[k][ScoreColumn(m)] == Text(CalculateScore(df.rows[k][m].value, m, custom))
    ensures forall c :: c in df.columns && (forall m :: m in DefaultMetrics() && m in df.columns ==> c != ScoreColumn(m)) ==>
              && c in Scored(df, custom).rows[k] && c in df.rows[k]
              && Scored(df, custom).rows[k][c] == df.rows[k][c]
  {
    ScoreRowShape(df.rows[k], DefaultMetrics(), custom);
  }

  /** The result is again a table `apply_thresholds` accepts, with its metric cells untouched. */
  lemma ScoredScorable(df: Frame, custom: Option<seq<Row>>)
    requires Scorable(df)
    ensures Scorable(Scored(df, custom))
    ensures forall k, m :: 0 <= k < |df.rows| && m in DefaultMetrics() && m in Scored(df, custom).rows[k] ==>
              m in df.rows[k] && Scored(df, custom).rows[k][m] == df.rows[k][m]
  {
    var ms := DefaultMetrics();
    var out := Scored(df, custom);
    ScoredColumnsShape(df.columns, ms);
    ScoreColumnsAreNotMetrics();
    forall k | 0 <= k < |df.rows| ensures
      && (forall c :: c in out.rows[k] <==> c in out.columns)
      && (forall m :: m in ms && m in out.rows[k] ==> m in df.rows[k] && out.rows[k][m] == df.rows[k][m])
    {
      ScoreRowShape(df.rows[k], ms, custom);
    }
  }

  /** Applying the thresholds twice gives the same table as applying them once. */
  lemma ScoredIdempotent(df: Frame, custom: Option<seq<Row>>)
    requires Scorable(df)
    ensures Scorable(Scored(df, custom))
    ensures Scored(Scored(df, custom), custom) == Scored(df, custom)
  {
    var ms := DefaultMetrics();
    var out := Scored(df, custom);
    ScoredScorable(df, custom);
    ScoredColumnsShape(df.columns, ms);
    ScoreColumnsAreNotMetrics();
    assert forall m :: m in ms && m in out.columns ==> m in df.columns;
    ScoredColumnsFixed(out.columns, ms);
    forall k | 0 <= k < |out.rows| ensures ScoreRow(out.rows[k], ms, custom) == out.rows[k] {
      ScoreRowShape(df.rows[k], ms, custom);
      ScoreRowFixed(out.rows[k], ms, custom);
    }
  }
}
