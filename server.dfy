/**
 * The three read endpoints of the service over the two loaded sheets:
 * the list of states, the current reading of one state, and the dated
 * history of one state with its trends.
 */
module Server {
  import opened Wrappers
  import opened Tables
  import opened Trends

  // ---------------------------------------------------------------------
  // GET /api/states
  // ---------------------------------------------------------------------

  /** The state names of the Summary sheet, in table order. */
  function GetStates(summary: seq<SummaryRow>): (names: seq<string>)
    ensures |names| == |summary|
    ensures forall i :: 0 <= i < |summary| ==> names[i] == summary[i].state
  {
    StateColumn(summary)
  }

  // ---------------------------------------------------------------------
  // POST /api/state
  // ---------------------------------------------------------------------

  datatype Reading = Reading(surfacePressure: real, maxFormaldehyde: real, minFormaldehyde: real)

  datatype StateResponse =
    | NoStateProvided
    | NoDataFound(state: string)
    | Found(reading: Reading)

  function ReadingOf(row: SummaryRow): Reading {
    Reading(row.surfacePressure, row.maxFormaldehyde, row.minFormaldehyde)
  }

  /**
   * The reading of the first Summary row for the requested state. The request's
   * `state` field is absent (`None`) or a string; an absent or empty one is rejected.
   */
  function ReceiveState(summary: seq<SummaryRow>, state: Option<string>): (r: StateResponse)
    ensures r.NoStateProvided? <==> state.None? || state.value == ""
    ensures r.NoDataFound? <==>
      state.Some? && state.value != "" && forall i :: 0 <= i < |summary| ==> summary[i].state != state.value
    ensures r.NoDataFound? ==> r.state == state.value
    ensures r.Found? ==>
              && state.Some?
              && exists i :: 0 <= i < |summary| && summary[i].state == state.value &&
                             (forall j :: 0 <= j < i ==> summary[j].state != state.value) &&
                             r.reading == ReadingOf(summary[i])
  {
    match state
    case None => NoStateProvided
    case Some(name) =>
      if name == "" then NoStateProvided
      else match FirstMatch(summary, name)
        case None => NoDataFound(name)
        case Some(k) => Found(ReadingOf(summary[k]))
  }

  /** The `error` text of a rejected request; the not-found text names the state. */
  function StateError(r: StateResponse): (msg: string)
    requires !r.Found?
    ensures r.NoStateProvided? ==> msg == "No state provided."
    ensures r.NoDataFound? ==>
              && |msg| == |r.state| + 19
              && msg[..18] == "No data found for "
              && msg[18..|msg| - 1] == r.state
              && msg[|msg| - 1] == '.'
  {
    match r
    case NoStateProvided => "No state provided."
    case NoDataFound(state) => "No data found for " + state + "."
  }

  // ---------------------------------------------------------------------
  // GET /api/history/<state>
  // ---------------------------------------------------------------------

  /** The four parallel series the history endpoint returns for plotting. */
  datatype Series = Series(
    dates: seq<Date>,
    surfacePressure: seq<real>,
    maxFormaldehyde: seq<real>,
    minFormaldehyde: seq<real>)

  datatype HistoryResponse =
    | NoHistoryFound(state: string)
    | History(series: Series, trends: TrendReport)

  /** The HistoryData rows of `state`, sorted by date. */
  function SortedHistory(history: seq<HistoryRow>, state: string): (rows: seq<HistoryRow>)
    ensures SortedByDate(rows)
    ensures forall x :: multiset(rows)[x] == if x.state == state then multiset(history)[x] else 0
  {
    RowsOfCounts(history, state);
    SortByDate(RowsOf(history, state))
  }

  /**
   * The history of `state`: its rows sorted by date, each metric column with
   * missing cells shown as 0, and the trends of the sorted rows computed from
   * the present cells only.
   */
  function GetHistory(history: seq<HistoryRow>, state: string): (r: HistoryResponse)
    ensures r.NoHistoryFound? <==> forall i :: 0 <= i < |history| ==> history[i].state != state
    ensures r.NoHistoryFound? ==> r.state == state
    ensures r.History? ==>
      var rows := SortedHistory(history, state);
      var s := r.series;
      && |rows| > 0
      && |s.dates| == |s.surfacePressure| == |s.maxFormaldehyde| == |s.minFormaldehyde| == |rows|
      && (forall i :: 0 <= i < |rows| ==>
            && s.dates[i] == rows[i].date
            && s.surfacePressure[i] == rows[i].surfacePressure.GetOr(0.0)
            && s.maxFormaldehyde[i] == rows[i].maxFormaldehyde.GetOr(0.0)
            && s.minFormaldehyde[i] == rows[i].minFormaldehyde.GetOr(0.0))
      && (forall i, j :: 0 <= i < j < |s.dates| ==> s.dates[i] <= s.dates[j])
      && r.trends == TrendsOf(rows)
  {
    var matching := RowsOf(history, state);
    if |matching| == 0 then NoHistoryFound(state)
    else
      var rows := SortByDate(matching);
      assert |rows| == |multiset(rows)| == |multiset(matching)| == |matching|;
      var series := Series(
        DateColumn(rows),
        FillMissing(rows, SurfacePressure),
        FillMissing(rows, MaxFormaldehyde),
        FillMissing(rows, MinFormaldehyde));
      History(series, TrendsOf(rows))
  }

  /** The `error` text of a history request for a state without rows; it names the state. */
  function HistoryError(r: HistoryResponse): (msg: string)
    requires r.NoHistoryFound?
    ensures |msg| == |r.state| + 30
    ensures msg[..29] == "No historical data found for "
    ensures msg[29..|msg| - 1] == r.state
    ensures msg[|msg| - 1] == '.'
  {
    "No historical data found for " + r.state + "."
  }

  /**
   * The history of a state holds one entry per HistoryData row of that state,
   * whatever order the sort leaves among equal dates.
   */
  lemma HistoryLength(history: seq<HistoryRow>, state: string)
    ensures |SortedHistory(history, state)| == |RowsOf(history, state)|
  {
  }

  /** HistoryData has at most one row per state and date. */
  ghost predicate DatesKeyedPerState(history: seq<HistoryRow>) {
    forall x, y :: x in history && y in history && x.state == y.state && x.date == y.date ==> x == y
  }

  /**
   * When each state has at most one row per date, any date-sorted arrangement
   * of a state's rows is the one the endpoint returns, so neither the series
   * nor the trends depend on how the sort breaks ties.
   */
  lemma HistoryOrderDetermined(history: seq<HistoryRow>, state: string, other: seq<HistoryRow>)
    requires DatesKeyedPerState(history)
    requires SortedByDate(other) && multiset(other) == multiset(RowsOf(history, state))
    ensures other == SortedHistory(history, state)
  {
    var rows := SortedHistory(history, state);
    assert DatesAreKeys(rows) by {
      forall x, y | x in rows && y in rows && x.date == y.date ensures x == y {
        assert x in multiset(rows) && y in multiset(rows);
        assert x in multiset(history) && y in multiset(history);
      }
    }
    SortedPermutationUnique(rows, other);
  }

  // ---------------------------------------------------------------------
  // Worked examples (dates written as yyyymmdd numbers)
  // ---------------------------------------------------------------------

  /** Two maximum-formaldehyde readings, 10 then 15, stored out of date order. */
  lemma TexasExample()
    ensures var history := [
        HistoryRow("Texas", 20230601, None, Some(15.0), None),
        HistoryRow("Ohio", 20230301, Some(990.0), Some(1.0), Some(0.5)),
        HistoryRow("Texas", 20230101, None, Some(10.0), None)];
      var r := GetHistory(history, "Texas");
      && r.History?
      && r.series.dates == [20230101, 20230601]
      && r.series.maxFormaldehyde == [10.0, 15.0]
      && r.series.surfacePressure == [0.0, 0.0]
      && r.trends == Report(map[MaxFormaldehyde := MetricTrend(10.0, 15.0, 5.0, 50.0, Increasing)],
                            Some(AirQualityTrend(Increasing, 50.0)))
  {
    var june := HistoryRow("Texas", 20230601, None, Some(15.0), None);
    var january := HistoryRow("Texas", 20230101, None, Some(10.0), None);
    var history := [june, HistoryRow("Ohio", 20230301, Some(990.0), Some(1.0), Some(0.5)), january];
    var rows := [january, june];
    assert SortedHistory(history, "Texas") == rows by {
      TexasRows();
      TexasSorted();
    }
    var r := GetHistory(history, "Texas");
    assert r.History? by {
      assert history[0].state == "Texas";
    }
    assert r.trends == TrendsOf(rows);
    TexasTrends();
    var s := r.series;
    PairIs(s.dates, 20230101, 20230601);
    PairIs(s.maxFormaldehyde, 10.0, 15.0);
    PairIs(s.surfacePressure, 0.0, 0.0);
  }

  /** A two-element sequence given by its elements. */
  lemma PairIs<T>(s: seq<T>, a: T, b: T)
    requires |s| == 2 && s[0] == a && s[1] == b
    ensures s == [a, b]
  {
  }

  /** The Texas rows of the example, selected in table order. */
  lemma TexasRows()
    ensures var june := HistoryRow("Texas", 20230601, None, Some(15.0), None);
      var january := HistoryRow("Texas", 20230101, None, Some(10.0), None);
      var history := [june, HistoryRow("Ohio", 20230301, Some(990.0), Some(1.0), Some(0.5)), january];
      RowsOf(history, "Texas") == [june, january]
  {
    var june := HistoryRow("Texas", 20230601, None, Some(15.0), None);
    var ohio := HistoryRow("Ohio", 20230301, Some(990.0), Some(1.0), Some(0.5));
    var january := HistoryRow("Texas", 20230101, None, Some(10.0), None);
    var history := [june, ohio, january];
    assert history[1..] == [ohio, january] && [ohio, january][1..] == [january];
    assert RowsOf([january], "Texas") == [january] by {
      assert [january][1..] == [];
    }
    assert "Ohio" != "Texas";
  }

  /** The Texas rows of the example, put in date order. */
  lemma TexasSorted()
    ensures var june := HistoryRow("Texas", 20230601, None, Some(15.0), None);
      var january := HistoryRow("Texas", 20230101, None, Some(10.0), None);
      SortByDate([june, january]) == [january, june]
  {
  }

  /** The trends of the Texas example, computed over its two rows in date order. */
  lemma TexasTrends()
    ensures var rows := [
        HistoryRow("Texas", 20230101, None, Some(10.0), None),
        HistoryRow("Texas", 20230601, None, Some(15.0), None)];
      TrendsOf(rows) == Report(map[MaxFormaldehyde := MetricTrend(10.0, 15.0, 5.0, 50.0, Increasing)],
                               Some(AirQualityTrend(Increasing, 50.0)))
  {
  }

  /** A single row, with its surface pressure missing: plotted as 0, and too short for trends. */
  lemma SingleRowExample()
    ensures var history := [HistoryRow("Maine", 20230101, None, Some(2.0), Some(1.0))];
      GetHistory(history, "Maine") == History(Series([20230101], [0.0], [2.0], [1.0]), InsufficientData)
  {
  }

  /** A first value of 0 gives a change percentage of 0 rather than a division by zero. */
  lemma ZeroFirstValueExample()
    ensures var rows := [
        HistoryRow("Utah", 1, Some(0.0), None, None),
        HistoryRow("Utah", 2, Some(5.0), None, None)];
      TrendsOf(rows) == Report(map[SurfacePressure := MetricTrend(0.0, 5.0, 5.0, 0.0, Increasing)], None)
  {
  }

  /** Two rows with every cell missing: no marker, and no entries at all. */
  lemma AllMissingExample()
    ensures var rows := [HistoryRow("Iowa", 1, None, None, None), HistoryRow("Iowa", 2, None, None, None)];
      TrendsOf(rows) == Report(map[], None)
  {
  }

  /**
   * A missing middle reading is plotted as 0 but skipped by the trend, which
   * still runs from 100 to 90.
   */
  lemma MissingMiddleExample()
    ensures var rows := [
        HistoryRow("Iowa", 1, Some(100.0), None, None),
        HistoryRow("Iowa", 2, None, None, None),
        HistoryRow("Iowa", 3, Some(90.0), None, None)];
      && FillMissing(rows, SurfacePressure) == [100.0, 0.0, 90.0]
      && TrendsOf(rows) == Report(map[SurfacePressure := MetricTrend(100.0, 90.0, -10.0, -10.0, Decreasing)], None)
  {
  }
}
