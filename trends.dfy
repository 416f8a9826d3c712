/**
 * The trend calculation of the history endpoint: for each metric, the
 * endpoint-to-endpoint change over the present values of a date-sorted
 * series, its percentage and its direction, plus a summary of the
 * maximum-formaldehyde trend.
 */
module Trends {
  import opened Wrappers
  import opened Tables

  datatype Direction = Increasing | Decreasing | Stable

  /** The entry emitted for one metric. */
  datatype MetricTrend = MetricTrend(
    firstValue: real,
    lastValue: real,
    change: real,
    changePercent: real,
    direction: Direction)

  /**
   * The `air_quality_trend` entry. Its description sentence is a rendering of
   * these two fields: the direction and the absolute percentage change.
   */
  datatype AirQualityTrend = AirQualityTrend(direction: Direction, percentMagnitude: real)

  /** Either the insufficient-data marker or the per-metric entries with the optional summary. */
  datatype TrendReport =
    | InsufficientData
    | Report(metrics: map<Metric, MetricTrend>, airQuality: Option<AirQualityTrend>)

  function Abs(x: real): real {
    if x < 0.0 then -x else x
  }

  function DirectionOf(change: real): Direction {
    if change > 0.0 then Increasing else if change < 0.0 then Decreasing else Stable
  }

  /** The entry for a metric whose present values, in date order, are `vs`. */
  function TrendOfValues(vs: seq<real>): MetricTrend
    requires |vs| > 1
  {
    var first := vs[0];
    var last := vs[|vs| - 1];
    var change := last - first;
    MetricTrend(first, last, change, if first != 0.0 then change / first * 100.0 else 0.0, DirectionOf(change))
  }

  /** The entries for every metric with more than one present value. */
  function MetricTrends(rows: seq<HistoryRow>): map<Metric, MetricTrend> {
    map m | m in AllMetrics && |DropMissing(rows, m)| > 1 :: TrendOfValues(DropMissing(rows, m))
  }

  function AirQualityOf(metrics: map<Metric, MetricTrend>): Option<AirQualityTrend> {
    if MaxFormaldehyde in metrics then
      Some(AirQualityTrend(metrics[MaxFormaldehyde].direction, Abs(metrics[MaxFormaldehyde].changePercent)))
    else None
  }

  /** What the calculation yields for a date-sorted series of one state's rows. */
  function TrendsOf(rows: seq<HistoryRow>): (r: TrendReport)
    ensures r.InsufficientData? <==> |rows| < 2
    ensures r.Report? ==> r.metrics.Keys <= AllMetrics
  {
    if |rows| < 2 then InsufficientData
    else
      var metrics := MetricTrends(rows);
      Report(metrics, AirQualityOf(metrics))
  }

  /**
   * The calculation as the service runs it: a dictionary filled metric by
   * metric, then the air-quality entry added when the maximum-formaldehyde
   * entry exists.
   */
  method CalculateTrends(rows: seq<HistoryRow>) returns (t: TrendReport)
    ensures t == TrendsOf(rows)
    ensures t.InsufficientData? <==> |rows| < 2
    ensures t.Report? ==> forall m :: m in t.metrics <==> |DropMissing(rows, m)| > 1
    ensures t.Report? ==> (t.airQuality.Some? <==> MaxFormaldehyde in t.metrics)
    ensures t.Report? && t.airQuality.Some? ==>
      t.airQuality.value.direction == t.metrics[MaxFormaldehyde].direction &&
      t.airQuality.value.percentMagnitude == Abs(t.metrics[MaxFormaldehyde].changePercent)
  {
    if |rows| < 2 {
      return InsufficientData;
    }
    var trends: map<Metric, MetricTrend> := map[];
    var metrics := [SurfacePressure, MaxFormaldehyde, MinFormaldehyde];
    for k := 0 to |metrics|
      invariant forall m :: m in trends <==> m in metrics[..k] && |DropMissing(rows, m)| > 1
      invariant forall m :: m in trends ==> trends[m] == TrendOfValues(DropMissing(rows, m))
    {
      var metric := metrics[k];
      var values := DropMissing(rows, metric);
      if |values| > 1 {
        var first := values[0];
        var last := values[|values| - 1];
        var change := last - first;
        var changePercent := if first != 0.0 then change / first * 100.0 else 0.0;
        var direction := if change > 0.0 then Increasing else if change < 0.0 then Decreasing else Stable;
        var entry := MetricTrend(first, last, change, changePercent, direction);
        assert entry == TrendOfValues(values);
        trends := trends[metric := entry];
      }
      assert metrics[..k + 1] == metrics[..k] + [metric];
    }
    var airQuality := None;
    if MaxFormaldehyde in trends {
      var formaldehyde := trends[MaxFormaldehyde];
      airQuality := Some(AirQualityTrend(formaldehyde.direction, Abs(formaldehyde.changePercent)));
    }
    assert metrics[..|metrics|] == metrics;
    CollectedAll(rows, trends);
    t := Report(trends, airQuality);
    ReportShape(rows);
  }

  /** A dictionary that holds exactly the entries of the metrics with more than one present value. */
  lemma CollectedAll(rows: seq<HistoryRow>, trends: map<Metric, MetricTrend>)
    requires forall m :: m in trends <==> m in [SurfacePressure, MaxFormaldehyde, MinFormaldehyde] && |DropMissing(rows, m)| > 1
    requires forall m :: m in trends ==> trends[m] == TrendOfValues(DropMissing(rows, m))
    ensures trends == MetricTrends(rows)
  {
  }

  /** The shape of the calculation's result, read off its definition. */
  lemma ReportShape(rows: seq<HistoryRow>)
    ensures var t := TrendsOf(rows);
      && (t.InsufficientData? <==> |rows| < 2)
      && (t.Report? ==> forall m :: m in t.metrics <==> |DropMissing(rows, m)| > 1)
      && (t.Report? ==> (t.airQuality.Some? <==> MaxFormaldehyde in t.metrics))
      && (t.Report? && t.airQuality.Some? ==>
            && t.airQuality.value.direction == t.metrics[MaxFormaldehyde].direction
            && t.airQuality.value.percentMagnitude == Abs(t.metrics[MaxFormaldehyde].changePercent))
  {
  }

  /**
   * A metric has an entry exactly when two rows have it present; otherwise it
   * is left out without any error entry.
   */
  lemma {:induction false} EntryIffTwoPresent(rows: seq<HistoryRow>, m: Metric)
    requires |rows| >= 2
    ensures m in TrendsOf(rows).metrics <==>
      exists i, j :: 0 <= i < j < |rows| && Cell(rows[i], m).Some? && Cell(rows[j], m).Some?
  {
    AllMetricsComplete(m);
    DropMissingAtLeastTwo(rows, m);
  }

  /**
   * An emitted entry runs from the earliest to the latest present value of its
   * metric; its change, percentage and direction follow from those two.
   */
  lemma {:induction false} EmittedEntry(rows: seq<HistoryRow>, m: Metric)
    requires TrendsOf(rows).Report? && m in TrendsOf(rows).metrics
    ensures var t := TrendsOf(rows).metrics[m];
      && (exists i :: 0 <= i < |rows| && Cell(rows[i], m) == Some(t.firstValue) &&
                      (forall j :: 0 <= j < i ==> Cell(rows[j], m).None?))
      && (exists i :: 0 <= i < |rows| && Cell(rows[i], m) == Some(t.lastValue) &&
                      (forall j :: i < j < |rows| ==> Cell(rows[j], m).None?))
      && t.change == t.lastValue - t.firstValue
      && (t.firstValue != 0.0 ==> t.changePercent == t.change / t.firstValue * 100.0)
      && (t.firstValue == 0.0 ==> t.changePercent == 0.0)
      && (t.direction == Increasing <==> t.change > 0.0)
      && (t.direction == Decreasing <==> t.change < 0.0)
      && (t.direction == Stable <==> t.change == 0.0)
  {
    FirstKept(rows, m);
    LastKept(rows, m);
  }
}
