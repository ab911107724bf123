/**
 * `get_threshold_df` (src/thresholds.py): the built-in table flattened into editable rows, and the
 * round trip that makes those rows, used as the caller's table, score exactly like the built-in path.
 */
module ThresholdTable {
  import opened Wrappers
  import opened Thresholds

  /** The editable row written for one interval of `metric`; an infinite `Max` is the '∞' cell. */
  function RowOf(metric: string, r: Range): Row {
    Row(metric, r.score, r.min, r.max)
  }

  /** The rows of one metric, one per interval, in interval order. */
  function RowsOf(e: MetricRanges): seq<Row> {
    seq(|e.ranges|, k requires 0 <= k < |e.ranges| => RowOf(e.metric, e.ranges[k]))
  }

  /** All rows of a table of metrics, metric by metric. */
  function Flatten(es: seq<MetricRanges>): seq<Row> {
    if es == [] then [] else RowsOf(es[0]) + Flatten(es[1..])
  }

  predicate DistinctMetrics(es: seq<MetricRanges>) {
    forall i, j :: 0 <= i < j < |es| ==> es[i].metric != es[j].metric
  }

  lemma {:induction false} FlattenSnoc(es: seq<MetricRanges>, e: MetricRanges)
    ensures Flatten(es + [e]) == Flatten(es) + RowsOf(e)
  {
    if es == [] {
      assert es + [e] == [e];
      assert Flatten([e]) == RowsOf(e) + Flatten([]);
    } else {
      assert (es + [e])[1..] == es[1..] + [e];
      FlattenSnoc(es[1..], e);
    }
  }

  /** `get_threshold_df()`: the nested loops that append one row per (metric, interval) pair. */
  method GetThresholdTable() returns (rows: seq<Row>)
    ensures rows == Flatten(DefaultThresholds)
  {
    rows := [];
    var i := 0;
    while i < |DefaultThresholds|
      invariant 0 <= i <= |DefaultThresholds|
      invariant rows == Flatten(DefaultThresholds[..i])
    {
      var e := DefaultThresholds[i];
      var k := 0;
      while k < |e.ranges|
        invariant 0 <= k <= |e.ranges|
        invariant rows == Flatten(DefaultThresholds[..i]) + RowsOf(e)[..k]
      {
        assert RowsOf(e)[..k + 1] == RowsOf(e)[..k] + [RowOf(e.metric, e.ranges[k])];
        rows := rows + [RowOf(e.metric, e.ranges[k])];
        k := k + 1;
      }
      assert RowsOf(e)[..k] == RowsOf(e);
      assert DefaultThresholds[..i + 1] == DefaultThresholds[..i] + [e];
      FlattenSnoc(DefaultThresholds[..i], e);
      i := i + 1;
    }
    assert DefaultThresholds[..i] == DefaultThresholds;
  }

  /** With four intervals per metric, row 4i+k is interval k of metric i. */
  lemma {:induction false} FlattenLayout(es: seq<MetricRanges>)
    requires forall i :: 0 <= i < |es| ==> |es[i].ranges| == 4
    ensures |Flatten(es)| == 4 * |es|
    ensures forall i, k :: 0 <= i < |es| && 0 <= k < 4 ==> Flatten(es)[4 * i + k] == RowOf(es[i].metric, es[i].ranges[k])
  {
    if es != [] {
      FlattenLayout(es[1..]);
      forall i, k | 0 <= i < |es| && 0 <= k < 4
        ensures Flatten(es)[4 * i + k] == RowOf(es[i].metric, es[i].ranges[k])
      {
        if i > 0 {
          assert es[i] == es[1..][i - 1];
          assert Flatten(es)[4 * i + k] == Flatten(es[1..])[4 * (i - 1) + k];
        }
      }
    }
  }

  /** Flattening tables of four labelled intervals each: row `4 * i + k` is interval `k` of table `i`. */
  lemma LabelledLayout(es: seq<MetricRanges>)
    requires forall i :: 0 <= i < |es| ==> |es[i].ranges| == 4
    requires forall i, k :: 0 <= i < |es| && 0 <= k < |es[i].ranges| ==> es[i].ranges[k].score == Labels[k]
    ensures |Flatten(es)| == 4 * |es|
    ensures forall i, k :: 0 <= i < |es| && 0 <= k < |es[i].ranges| ==>
              Flatten(es)[4 * i + k] == Row(es[i].metric, Labels[k], es[i].ranges[k].min, es[i].ranges[k].max)
  {
    FlattenLayout(es);
  }

  /** The flattened built-in table: 36 rows, metrics in table order, and within each metric the rows
      Poor, Fair, Good, Excellent carrying that interval's bounds. */
  lemma DefaultTableLayout()
    ensures |DefaultThresholds| == 9 && |Flatten(DefaultThresholds)| == 36
    ensures forall i :: 0 <= i < 9 ==> |DefaultThresholds[i].ranges| == 4
    ensures forall i, k :: 0 <= i < |DefaultThresholds| && 0 <= k < |DefaultThresholds[i].ranges| ==>
              Flatten(DefaultThresholds)[4 * i + k]
                == Row(DefaultThresholds[i].metric, Labels[k], DefaultThresholds[i].ranges[k].min, DefaultThresholds[i].ranges[k].max)
  {
    DefaultTablesPartition();
    LabelledLayout(DefaultThresholds);
  }

  lemma {:induction false} ScanRowsAppend(a: seq<Row>, b: seq<Row>, metric: string, v: real)
    ensures ScanRows(a + b, metric, v) == if ScanRows(a, metric, v).Some? then ScanRows(a, metric, v) else ScanRows(b, metric, v)
  {
    if a != [] {
      assert (a + b)[1..] == a[1..] + b;
      ScanRowsAppend(a[1..], b, metric, v);
    } else {
      assert a + b == b;
    }
  }

  lemma {:induction false} ScanRowsOf(e: MetricRanges, metric: string, v: real)
    ensures ScanRows(RowsOf(e), metric, v) == if e.metric == metric then ScanRanges(e.ranges, v) else None
    decreases |e.ranges|
  {
    if e.ranges != [] {
      var tail := MetricRanges(e.metric, e.ranges[1..]);
      assert RowsOf(e)[1..] == RowsOf(tail);
      ScanRowsOf(tail, metric, v);
    }
  }

  /** Scanning the flattened rows for `metric` is the built-in lookup of `metric` followed by its scan. */
  lemma {:induction false} ScanFlatten(es: seq<MetricRanges>, metric: string, v: real)
    requires DistinctMetrics(es)
    ensures metric in MetricNames(es) ==> ScanRows(Flatten(es), metric, v) == ScanRanges(Lookup(es, metric), v)
    ensures metric !in MetricNames(es) ==> ScanRows(Flatten(es), metric, v) == None
  {
    if es != [] {
      var rest := es[1..];
      assert MetricNames(es) == [es[0].metric] + MetricNames(rest);
      assert DistinctMetrics(rest) by {
        forall i, j | 0 <= i < j < |rest| ensures rest[i].metric != rest[j].metric {
          assert rest[i] == es[i + 1] && rest[j] == es[j + 1];
        }
      }
      ScanFlatten(rest, metric, v);
      ScanRowsAppend(RowsOf(es[0]), Flatten(rest), metric, v);
      ScanRowsOf(es[0], metric, v);
      if es[0].metric == metric {
        assert metric !in MetricNames(rest) by {
          forall j | 0 <= j < |rest| ensures MetricNames(rest)[j] != metric {
            assert rest[j] == es[j + 1];
          }
        }
      }
    }
  }

  /** Editing nothing round-trips: the flattened built-in table, passed as the caller's table, gives the
      built-in label for every built-in metric and value, and "Unknown" for any other metric. */
  lemma FlattenedDefaultsScoreAlike(metric: string, value: real)
    ensures metric in DefaultMetrics() ==>
              CalculateScore(value, metric, Some(Flatten(DefaultThresholds))) == CalculateScore(value, metric, None)
    ensures metric !in DefaultMetrics() ==>
              CalculateScore(value, metric, Some(Flatten(DefaultThresholds))) == Unknown
  {
    DefaultMetricsDistinct();
    ScanFlatten(DefaultThresholds, metric, value);
  }
}
