/**
 * Performance-score bucketing (src/thresholds.py): the built-in threshold table and
 * `calculate_score`, which labels a metric value with the first interval that contains it.
 */
module Thresholds {
  import opened Wrappers

  /** Upper end of a score interval. `Inf` stands for `float('inf')` in the built-in table
      and for the '∞' cell of an editable table. */
  datatype Bound = Finite(value: real) | Inf

  /** One labelled interval [min, max) of a metric in the built-in table. */
  datatype Range = Range(score: string, min: real, max: Bound)

  /** The intervals of one metric, in the order the built-in table lists them. */
  datatype MetricRanges = MetricRanges(metric: string, ranges: seq<Range>)

  /** One row of an editable threshold table, with columns Metric, Score, Min and Max. */
  datatype Row = Row(metric: string, score: string, min: real, max: Bound)

  /** The label returned when no interval contains the value. */
  const Unknown: string := "Unknown"

  /** The four labels of the built-in table, in the order it lists them. */
  const Labels: seq<string> := ["Poor", "Fair", "Good", "Excellent"]

  predicate Below(v: real, b: Bound) {
    b.Inf? || v < b.value
  }

  /** Half-open membership: `min <= v < max`. */
  predicate InInterval(v: real, min: real, max: Bound) {
    min <= v && Below(v, max)
  }

  predicate Contains(r: Range, v: real) {
    InInterval(v, r.min, r.max)
  }

  /** A row of an editable table applies to `v` for `metric`. */
  predicate RowMatches(row: Row, metric: string, v: real) {
    row.metric == metric && InInterval(v, row.min, row.max)
  }

  function Quad(metric: string, poor: (real, Bound), fair: (real, Bound),
                good: (real, Bound), excellent: (real, Bound)): MetricRanges
  {
    MetricRanges(metric, [Range("Poor", poor.0, poor.1), Range("Fair", fair.0, fair.1),
                          Range("Good", good.0, good.1), Range("Excellent", excellent.0, excellent.1)])
  }

  /** `DEFAULT_THRESHOLDS`: nine metrics, each with Poor, Fair, Good and Excellent intervals. */
  const DefaultThresholds: seq<MetricRanges> := [
    Quad("0-10 Yard Sprint (s)", (1.8, Inf), (1.65, Finite(1.8)), (1.5, Finite(1.65)), (0.0, Finite(1.5))),
    Quad("Fly-10 (s)", (1.2, Inf), (1.05, Finite(1.2)), (0.9, Finite(1.05)), (0.0, Finite(0.9))),
    Quad("Pro-Agility (s)", (4.6, Inf), (4.4, Finite(4.6)), (4.2, Finite(4.4)), (0.0, Finite(4.2))),
    Quad("MTP Peak Force (N)", (0.0, Finite(2000.0)), (2000.0, Finite(2300.0)), (2300.0, Finite(2600.0)), (2600.0, Inf)),
    Quad("Chin-Up Strength (Reps)", (0.0, Finite(8.0)), (8.0, Finite(12.0)), (12.0, Finite(15.0)), (15.0, Inf)),
    Quad("CMJ (in)", (0.0, Finite(25.0)), (25.0, Finite(27.0)), (27.0, Finite(29.0)), (29.0, Inf)),
    Quad("NCMJ (in)", (0.0, Finite(23.0)), (23.0, Finite(25.0)), (25.0, Finite(27.0)), (27.0, Inf)),
    Quad("Seated Med Ball Throw (ft)", (0.0, Finite(16.0)), (16.0, Finite(17.5)), (17.5, Finite(19.0)), (19.0, Inf)),
    Quad("5-Jump RSI", (0.0, Finite(1.9)), (1.9, Finite(2.1)), (2.1, Finite(2.2)), (2.2, Inf))
  ]

  /** The metric names of a table of metrics, in order (the dictionary's keys). */
  function MetricNames(es: seq<MetricRanges>): (names: seq<string>)
    ensures |names| == |es|
    ensures forall i :: 0 <= i < |es| ==> names[i] == es[i].metric
  {
    seq(|es|, i requires 0 <= i < |es| => es[i].metric)
  }

  function DefaultMetrics(): seq<string> {
    MetricNames(DefaultThresholds)
  }

  /** Index `i` is the first entry of `es` named `metric`. */
  ghost predicate FirstEntry(es: seq<MetricRanges>, metric: string, i: int) {
    0 <= i < |es| && es[i].metric == metric && forall j :: 0 <= j < i ==> es[j].metric != metric
  }

  /** Dictionary lookup `thresholds[metric]`: the intervals of the first entry named `metric`. */
  function Lookup(es: seq<MetricRanges>, metric: string): (rs: seq<Range>)
    requires metric in MetricNames(es)
    ensures exists i :: FirstEntry(es, metric, i) && rs == es[i].ranges
  {
    if es[0].metric == metric then
      assert FirstEntry(es, metric, 0);
      es[0].ranges
    else
      assert metric in MetricNames(es[1..]) by {
        var k :| 0 <= k < |es| && MetricNames(es)[k] == metric;
        assert k != 0 && es[1..][k - 1] == es[k];
      }
      var rs := Lookup(es[1..], metric);
      ghost var i :| FirstEntry(es[1..], metric, i) && rs == es[1..][i].ranges;
      assert FirstEntry(es, metric, i + 1);
      rs
  }

  /** The position of the entry `Lookup` returns. */
  lemma LookupIndex(es: seq<MetricRanges>, metric: string) returns (i: nat)
    requires metric in MetricNames(es)
    ensures FirstEntry(es, metric, i) && Lookup(es, metric) == es[i].ranges
  {
    var rs := Lookup(es, metric);
    var j :| FirstEntry(es, metric, j) && rs == es[j].ranges;
    i := j;
  }

  /** Index `i` is the first interval of `rs` that contains `v`. */
  ghost predicate FirstRange(rs: seq<Range>, v: real, i: int) {
    0 <= i < |rs| && Contains(rs[i], v) && forall j :: 0 <= j < i ==> !Contains(rs[j], v)
  }

  /** Index `i` is the first row of `rows` that applies to `v` for `metric`. */
  ghost predicate FirstRow(rows: seq<Row>, metric: string, v: real, i: int) {
    0 <= i < |rows| && RowMatches(rows[i], metric, v) && forall j :: 0 <= j < i ==> !RowMatches(rows[j], metric, v)
  }

  /** The loop over `thresholds.items()` on the default path: label of the first interval containing `v`. */
  function ScanRanges(rs: seq<Range>, v: real): (r: Option<string>)
    ensures r.None? <==> forall i :: 0 <= i < |rs| ==> !Contains(rs[i], v)
    ensures r.Some? ==> exists i :: FirstRange(rs, v, i) && r.value == rs[i].score
  {
    if rs == [] then None
    else if Contains(rs[0], v) then
      assert FirstRange(rs, v, 0);
      Some(rs[0].score)
    else
      var r := ScanRanges(rs[1..], v);
      assert forall i :: 1 <= i < |rs| ==> rs[i] == rs[1..][i - 1];
      if r.Some? then
        ghost var i :| FirstRange(rs[1..], v, i) && r.value == rs[1..][i].score;
        assert FirstRange(rs, v, i + 1);
        r
      else r
  }

  /** The loop over the rows of the caller's table filtered to `metric`: score of the first row
      whose interval contains `v`. Rows for other metrics are skipped. */
  function ScanRows(rows: seq<Row>, metric: string, v: real): (r: Option<string>)
    ensures r.None? <==> forall i :: 0 <= i < |rows| ==> !RowMatches(rows[i], metric, v)
    ensures r.Some? ==> exists i :: FirstRow(rows, metric, v, i) && r.value == rows[i].score
  {
    if rows == [] then None
    else if RowMatches(rows[0], metric, v) then
      assert FirstRow(rows, metric, v, 0);
      Some(rows[0].score)
    else
      var r := ScanRows(rows[1..], metric, v);
      assert forall i :: 1 <= i < |rows| ==> rows[i] == rows[1..][i - 1];
      if r.Some? then
        ghost var i :| FirstRow(rows[1..], metric, v, i) && r.value == rows[1..][i].score;
        assert FirstRow(rows, metric, v, i + 1);
        r
      else r
  }

  /** `calculate_score(value, metric, session_state_df)`. With a caller-supplied table only that
      table is consulted; without one, the built-in intervals of `metric` are. No match gives "Unknown". */
  function CalculateScore(value: real, metric: string, custom: Option<seq<Row>>): (r: string)
    requires custom.None? ==> metric in DefaultMetrics()
    ensures custom.Some? && (exists i :: FirstRow(custom.value, metric, value, i))
            ==> exists i :: FirstRow(custom.value, metric, value, i) && r == custom.value[i].score
    ensures custom.Some? && (forall i :: 0 <= i < |custom.value| ==> !RowMatches(custom.value[i], metric, value))
            ==> r == Unknown
    ensures custom.None? && (exists i :: FirstRange(Lookup(DefaultThresholds, metric), value, i))
            ==> exists i :: FirstRange(Lookup(DefaultThresholds, metric), value, i)
                            && r == Lookup(DefaultThresholds, metric)[i].score
    ensures custom.None? && (forall i :: 0 <= i < |Lookup(DefaultThresholds, metric)| ==>
                                          !Contains(Lookup(DefaultThresholds, metric)[i], value))
            ==> r == Unknown
  {
    var found := match custom
      case Some(rows) => ScanRows(rows, metric, value)
      case None => ScanRanges(Lookup(DefaultThresholds, metric), value);
    match found
    case Some(score) => score
    case None => Unknown
  }

  // ---- The built-in intervals of each metric partition [0, ∞) ----

  /** No interval of `rs` contains `v`. */
  predicate NoHit(rs: seq<Range>, v: real) {
    forall i :: 0 <= i < |rs| ==> !Contains(rs[i], v)
  }

  /** Exactly one interval of `rs` contains `v`. */
  ghost predicate UniqueHit(rs: seq<Range>, v: real) {
    exists i :: 0 <= i < |rs| && Contains(rs[i], v) && forall j :: 0 <= j < |rs| && Contains(rs[j], v) ==> j == i
  }

  /** The intervals of `rs` partition [lo, ∞): nothing below `lo` is covered, everything from `lo` up exactly once. */
  ghost predicate Partitions(rs: seq<Range>, lo: real) {
    forall v: real :: (v < lo ==> NoHit(rs, v)) && (lo <= v ==> UniqueHit(rs, v))
  }

  /** In list order, the intervals run upward from `lo` without gaps, the last one unbounded. */
  predicate TilesUp(rs: seq<Range>, lo: real) {
    |rs| > 0 && rs[0].min == lo &&
    if |rs| == 1 then rs[0].max.Inf?
    else rs[0].max.Finite? && lo < rs[0].max.value && TilesUp(rs[1..], rs[0].max.value)
  }

  /** In reverse list order, the intervals run upward from `lo` without gaps, the first one unbounded. */
  predicate TilesDown(rs: seq<Range>, lo: real) {
    |rs| > 0 && rs[|rs| - 1].min == lo &&
    if |rs| == 1 then rs[0].max.Inf?
    else rs[|rs| - 1].max.Finite? && lo < rs[|rs| - 1].max.value && TilesDown(rs[..|rs| - 1], rs[|rs| - 1].max.value)
  }

  lemma {:induction false} TilesUpAt(rs: seq<Range>, lo: real, v: real)
    requires TilesUp(rs, lo)
    ensures v < lo ==> NoHit(rs, v)
    ensures lo <= v ==> UniqueHit(rs, v)
  {
    if |rs| == 1 {
      if lo <= v { assert Contains(rs[0], v); }
    } else {
      var hi := rs[0].max.value;
      var rest := rs[1..];
      TilesUpAt(rest, hi, v);
      if v < hi {
        forall i | 0 <= i < |rs| ensures !Contains(rs[i], v) || i == 0 {
          if i > 0 { assert rs[i] == rest[i - 1]; }
        }
        if lo <= v { assert Contains(rs[0], v); }
      } else {
        var i :| 0 <= i < |rest| && Contains(rest[i], v) && forall j :: 0 <= j < |rest| && Contains(rest[j], v) ==> j == i;
        assert Contains(rs[i + 1], v);
        forall j | 0 <= j < |rs| && Contains(rs[j], v) ensures j == i + 1 {
          assert j != 0;
          assert rs[j] == rest[j - 1];
        }
      }
    }
  }

  lemma {:induction false} TilesDownAt(rs: seq<Range>, lo: real, v: real)
    requires TilesDown(rs, lo)
    ensures v < lo ==> NoHit(rs, v)
    ensures lo <= v ==> UniqueHit(rs, v)
  {
    if |rs| == 1 {
      if lo <= v { assert Contains(rs[0], v); }
    } else {
      var n := |rs| - 1;
      var hi := rs[n].max.value;
      var rest := rs[..n];
      TilesDownAt(rest, hi, v);
      if v < hi {
        forall i | 0 <= i < |rs| ensures !Contains(rs[i], v) || i == n {
          if i < n { assert rs[i] == rest[i]; }
        }
        if lo <= v { assert Contains(rs[n], v); }
      } else {
        var i :| 0 <= i < |rest| && Contains(rest[i], v) && forall j :: 0 <= j < |rest| && Contains(rest[j], v) ==> j == i;
        assert Contains(rs[i], v);
        forall j | 0 <= j < |rs| && Contains(rs[j], v) ensures j == i {
          assert j != n;
          assert rs[j] == rest[j];
        }
      }
    }
  }

  /** A metric whose intervals, in the order Poor, Fair, Good, Excellent, run upward from 0
      (larger is better) or downward to 0 (smaller is better) partitions [0, ∞). */
  lemma QuadPartitions(metric: string, poor: (real, Bound), fair: (real, Bound), good: (real, Bound), excellent: (real, Bound))
    requires
      || (poor.0 == 0.0 && poor.1 == Finite(fair.0) && fair.1 == Finite(good.0) && good.1 == Finite(excellent.0)
          && excellent.1 == Inf && 0.0 < fair.0 < good.0 < excellent.0)
      || (excellent.0 == 0.0 && excellent.1 == Finite(good.0) && good.1 == Finite(fair.0) && fair.1 == Finite(poor.0)
          && poor.1 == Inf && 0.0 < good.0 < fair.0 < poor.0)
    ensures Partitions(Quad(metric, poor, fair, good, excellent).ranges, 0.0)
  {
    var rs := Quad(metric, poor, fair, good, excellent).ranges;
    if poor.0 == 0.0 && poor.1 == Finite(fair.0) {
      assert TilesUp(rs[3..], excellent.0);
      assert TilesUp(rs[2..], good.0) by { assert rs[2..][1..] == rs[3..]; }
      assert TilesUp(rs[1..], fair.0) by { assert rs[1..][1..] == rs[2..]; }
      assert TilesUp(rs, 0.0);
      forall v: real ensures (v < 0.0 ==> NoHit(rs, v)) && (0.0 <= v ==> UniqueHit(rs, v)) {
        TilesUpAt(rs, 0.0, v);
      }
    } else {
      assert TilesDown(rs[..1], poor.0);
      assert TilesDown(rs[..2], fair.0) by { assert rs[..2][..1] == rs[..1]; }
      assert TilesDown(rs[..3], good.0) by { assert rs[..3][..2] == rs[..2]; }
      assert TilesDown(rs, 0.0) by { assert rs[..3] == rs[..|rs| - 1]; }
      forall v: real ensures (v < 0.0 ==> NoHit(rs, v)) && (0.0 <= v ==> UniqueHit(rs, v)) {
        TilesDownAt(rs, 0.0, v);
      }
    }
  }

  /** Every built-in metric lists Poor, Fair, Good, Excellent, and its intervals partition [0, ∞). */
  lemma DefaultTablesPartition()
    ensures forall i :: 0 <= i < |DefaultThresholds| ==>
              var rs := DefaultThresholds[i].ranges;
              |rs| == 4 && (forall k :: 0 <= k < 4 ==> rs[k].score == Labels[k]) && Partitions(rs, 0.0)
  {
    QuadPartitions("0-10 Yard Sprint (s)", (1.8, Inf), (1.65, Finite(1.8)), (1.5, Finite(1.65)), (0.0, Finite(1.5)));
    QuadPartitions("Fly-10 (s)", (1.2, Inf), (1.05, Finite(1.2)), (0.9, Finite(1.05)), (0.0, Finite(0.9)));
    QuadPartitions("Pro-Agility (s)", (4.6, Inf), (4.4, Finite(4.6)), (4.2, Finite(4.4)), (0.0, Finite(4.2)));
    QuadPartitions("MTP Peak Force (N)", (0.0, Finite(2000.0)), (2000.0, Finite(2300.0)), (2300.0, Finite(2600.0)), (2600.0, Inf));
    QuadPartitions("Chin-Up Strength (Reps)", (0.0, Finite(8.0)), (8.0, Finite(12.0)), (12.0, Finite(15.0)), (15.0, Inf));
    QuadPartitions("CMJ (in)", (0.0, Finite(25.0)), (25.0, Finite(27.0)), (27.0, Finite(29.0)), (29.0, Inf));
    QuadPartitions("NCMJ (in)", (0.0, Finite(23.0)), (23.0, Finite(25.0)), (25.0, Finite(27.0)), (27.0, Inf));
    QuadPartitions("Seated Med Ball Throw (ft)", (0.0, Finite(16.0)), (16.0, Finite(17.5)), (17.5, Finite(19.0)), (19.0, Inf));
    QuadPartitions("5-Jump RSI", (0.0, Finite(1.9)), (1.9, Finite(2.1)), (2.1, Finite(2.2)), (2.2, Inf));
  }

  // ---- What a caller of calculate_score can rely on ----

  /** Scanning four intervals that partition [0, ∞): a value of at least 0 gets the label of the one
      interval containing it, a negative value gets nothing. */
  lemma PartitionedScan(rs: seq<Range>, value: real)
    requires |rs| == 4 && Partitions(rs, 0.0)
    ensures 0.0 <= value ==> exists k :: 0 <= k < 4 && Contains(rs[k], value) && ScanRanges(rs, value) == Some(rs[k].score)
    ensures value < 0.0 ==> ScanRanges(rs, value) == None
  {
    if 0.0 <= value {
      assert UniqueHit(rs, value);
      var u :| 0 <= u < |rs| && Contains(rs[u], value) && forall j :: 0 <= j < |rs| && Contains(rs[j], value) ==> j == u;
      var r := ScanRanges(rs, value);
      assert r.Some?;
      var k :| FirstRange(rs, value, k) && r.value == rs[k].score;
      assert Contains(rs[k], value);
    } else {
      assert NoHit(rs, value);
    }
  }

  /** The intervals the default path scans for a built-in metric. */
  lemma DefaultLookup(metric: string) returns (e: nat)
    requires metric in DefaultMetrics()
    ensures e < |DefaultThresholds| && Lookup(DefaultThresholds, metric) == DefaultThresholds[e].ranges
    ensures |DefaultThresholds[e].ranges| == 4 && Partitions(DefaultThresholds[e].ranges, 0.0)
    ensures forall k :: 0 <= k < 4 ==> DefaultThresholds[e].ranges[k].score == Labels[k]
  {
    e := LookupIndex(DefaultThresholds, metric);
    DefaultTablesPartition();
  }

  /** On the default path a value of at least 0 gets exactly one interval and that interval's label,
      one of Poor, Fair, Good and Excellent; a negative value gets "Unknown". */
  lemma DefaultScore(metric: string, value: real)
    requires metric in DefaultMetrics()
    ensures 0.0 <= value ==> UniqueHit(Lookup(DefaultThresholds, metric), value)
    ensures 0.0 <= value ==> exists k :: 0 <= k < 4 && Contains(Lookup(DefaultThresholds, metric)[k], value)
                                         && CalculateScore(value, metric, None) == Labels[k]
    ensures 0.0 <= value ==> CalculateScore(value, metric, None) != Unknown
    ensures value < 0.0 ==> CalculateScore(value, metric, None) == Unknown
  {
    var e := DefaultLookup(metric);
    var rs := DefaultThresholds[e].ranges;
    PartitionedScan(rs, value);
    if 0.0 <= value {
      var k :| 0 <= k < 4 && Contains(rs[k], value) && ScanRanges(rs, value) == Some(rs[k].score);
      assert CalculateScore(value, metric, None) == Labels[k];
      assert Labels[k] != Unknown;
    }
  }

  /** A caller-supplied table is consulted alone: with no row for `metric` the answer is "Unknown",
      even for a metric whose built-in intervals would have matched. */
  lemma CustomTableNoFallback(value: real, metric: string, rows: seq<Row>)
    requires forall i :: 0 <= i < |rows| ==> rows[i].metric != metric
    ensures CalculateScore(value, metric, Some(rows)) == Unknown
  {
  }

  /** Half-open intervals: a row applies at its own `Min` (unless its interval is empty) and never at its
      finite `Max`; a row whose `Max` is '∞' applies to every value from `Min` up. */
  lemma RowBoundaries(row: Row, v: real)
    ensures RowMatches(row, row.metric, row.min) <==> (row.max.Inf? || row.min < row.max.value)
    ensures row.max.Finite? ==> !RowMatches(row, row.metric, row.max.value)
    ensures row.max.Inf? ==> (RowMatches(row, row.metric, v) <==> row.min <= v)
  {
  }

  /** The built-in metric names are distinct, as the keys of a dictionary are. */
  lemma DefaultMetricsDistinct()
    ensures forall i, j :: 0 <= i < j < |DefaultThresholds| ==> DefaultThresholds[i].metric != DefaultThresholds[j].metric
  {
  }

  /** The CMJ boundaries: 25 is Fair, not Poor, and 29 is Excellent. */
  lemma CmjBoundaries()
    ensures "CMJ (in)" in DefaultMetrics()
    ensures CalculateScore(24.99, "CMJ (in)", None) == "Poor"
    ensures CalculateScore(25.0, "CMJ (in)", None) == "Fair"
    ensures CalculateScore(29.0, "CMJ (in)", None) == "Excellent"
  {
    assert DefaultMetrics()[5] == "CMJ (in)";
    var e := LookupIndex(DefaultThresholds, "CMJ (in)");
    DefaultMetricsDistinct();
    assert e == 5;
    var rs := DefaultThresholds[5].ranges;
    assert FirstRange(rs, 24.99, 0) && FirstRange(rs, 25.0, 1) && FirstRange(rs, 29.0, 3);
  }

  /** Overlapping rows: the first one in table order wins. */
  lemma FirstRowWins(metric: string, value: real, rows: seq<Row>, i: nat)
    requires i < |rows| && RowMatches(rows[i], metric, value)
    requires forall j :: 0 <= j < i ==> !RowMatches(rows[j], metric, value)
    ensures CalculateScore(value, metric, Some(rows)) == rows[i].score
  {
  }
}
