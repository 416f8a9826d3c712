/**
 * The two sheets of the workbook as in-memory tables, and the column
 * operations the endpoints apply to them: selecting the rows of one state,
 * dropping or zero-filling missing cells, sorting by date and taking the
 * first match.
 */
module Tables {
  import opened Wrappers

  /** A date, kept only as an ordered key (for instance a day number). */
  type Date = int

  /** The three numeric columns both sheets carry. */
  datatype Metric = SurfacePressure | MaxFormaldehyde | MinFormaldehyde

  const AllMetrics: set<Metric> := {SurfacePressure, MaxFormaldehyde, MinFormaldehyde}

  /** A row of the Summary sheet: one current reading per state. */
  datatype SummaryRow = SummaryRow(
    state: string,
    surfacePressure: real,
    maxFormaldehyde: real,
    minFormaldehyde: real)

  /** A row of the HistoryData sheet: one dated reading; any metric cell may be empty. */
  datatype HistoryRow = HistoryRow(
    state: string,
    date: Date,
    surfacePressure: Option<real>,
    maxFormaldehyde: Option<real>,
    minFormaldehyde: Option<real>)

  /** The cell of column `m` in row `r`. */
  function Cell(r: HistoryRow, m: Metric): Option<real> {
    match m
    case SurfacePressure => r.surfacePressure
    case MaxFormaldehyde => r.maxFormaldehyde
    case MinFormaldehyde => r.minFormaldehyde
  }

  lemma AllMetricsComplete(m: Metric)
    ensures m in AllMetrics
  {
  }

  // ---------------------------------------------------------------------
  // Selecting rows by state (a boolean mask `df[df['State'] == state]`)
  // ---------------------------------------------------------------------

  /** The rows of `rows` whose state is `state`, in table order. */
  function RowsOf(rows: seq<HistoryRow>, state: string): (r: seq<HistoryRow>)
    ensures forall i :: 0 <= i < |r| ==> r[i].state == state
    ensures |r| == 0 <==> forall i :: 0 <= i < |rows| ==> rows[i].state != state
  {
    if rows == [] then []
    else
      assert forall i :: 0 < i < |rows| ==> rows[i] == rows[1..][i - 1];
      (if rows[0].state == state then [rows[0]] else []) + RowsOf(rows[1..], state)
  }

  /** The selection holds every row of the state as often as the table does, and no other row. */
  lemma {:induction false} RowsOfCounts(rows: seq<HistoryRow>, state: string)
    ensures forall x :: multiset(RowsOf(rows, state))[x] == if x.state == state then multiset(rows)[x] else 0
  {
    if rows != [] {
      RowsOfCounts(rows[1..], state);
      var head := if rows[0].state == state then [rows[0]] else [];
      assert rows == [rows[0]] + rows[1..];
      assert multiset(rows) == multiset{rows[0]} + multiset(rows[1..]);
      assert multiset(RowsOf(rows, state)) == multiset(head) + multiset(RowsOf(rows[1..], state));
    }
  }

  /** The index of the first summary row for `state`, if any. */
  function FirstMatch(table: seq<SummaryRow>, state: string): (k: Option<nat>)
    ensures k.None? <==> forall i :: 0 <= i < |table| ==> table[i].state != state
    ensures k.Some? ==> k.value < |table| && table[k.value].state == state
    ensures k.Some? ==> forall j :: 0 <= j < k.value ==> table[j].state != state
  {
    if table == [] then None
    else if table[0].state == state then Some(0)
    else match FirstMatch(table[1..], state)
      case None => None
      case Some(k) => Some(k + 1)
  }

  /** The `State` column of the Summary sheet, in table order. */
  function StateColumn(table: seq<SummaryRow>): (names: seq<string>)
    ensures |names| == |table|
    ensures forall i :: 0 <= i < |table| ==> names[i] == table[i].state
  {
    if table == [] then [] else [table[0].state] + StateColumn(table[1..])
  }

  // ---------------------------------------------------------------------
  // Missing cells: dropped (`dropna`) or replaced by zero (`fillna(0)`)
  // ---------------------------------------------------------------------

  /** The present values of column `m`, in row order. */
  function DropMissing(rows: seq<HistoryRow>, m: Metric): (vs: seq<real>)
    ensures |vs| <= |rows|
    ensures |vs| == 0 <==> forall i :: 0 <= i < |rows| ==> Cell(rows[i], m).None?
  {
    if rows == [] then []
    else match Cell(rows[0], m)
      case Some(v) => [v] + DropMissing(rows[1..], m)
      case None => DropMissing(rows[1..], m)
  }

  /** Column `m` with every missing cell replaced by 0. */
  function FillMissing(rows: seq<HistoryRow>, m: Metric): (vs: seq<real>)
    ensures |vs| == |rows|
    ensures forall i :: 0 <= i < |rows| ==> vs[i] == Cell(rows[i], m).GetOr(0.0)
  {
    if rows == [] then [] else [Cell(rows[0], m).GetOr(0.0)] + FillMissing(rows[1..], m)
  }

  /** The `Date` column. */
  function DateColumn(rows: seq<HistoryRow>): (ds: seq<Date>)
    ensures |ds| == |rows|
    ensures forall i :: 0 <= i < |rows| ==> ds[i] == rows[i].date
  {
    if rows == [] then [] else [rows[0].date] + DateColumn(rows[1..])
  }

  /** Column `m` keeps at least two values after dropping exactly when two rows have it present. */
  lemma {:induction false} DropMissingAtLeastTwo(rows: seq<HistoryRow>, m: Metric)
    ensures |DropMissing(rows, m)| >= 2 <==>
      exists i, j :: 0 <= i < j < |rows| && Cell(rows[i], m).Some? && Cell(rows[j], m).Some?
  {
    if rows != [] {
      var tail := rows[1..];
      DropMissingAtLeastTwo(tail, m);
      if |DropMissing(rows, m)| >= 2 {
        if Cell(rows[0], m).Some? {
          assert |DropMissing(tail, m)| >= 1;
          var j :| 0 <= j < |tail| && Cell(tail[j], m).Some?;
          assert Cell(rows[j + 1], m).Some?;
        } else {
          var i, j :| 0 <= i < j < |tail| && Cell(tail[i], m).Some? && Cell(tail[j], m).Some?;
          assert Cell(rows[i + 1], m).Some? && Cell(rows[j + 1], m).Some?;
        }
      }
    }
  }

  /** The first value `dropna` keeps is the cell of the earliest row where the metric is present. */
  lemma {:induction false} FirstKept(rows: seq<HistoryRow>, m: Metric)
    requires |DropMissing(rows, m)| > 0
    ensures exists i :: 0 <= i < |rows| && Cell(rows[i], m) == Some(DropMissing(rows, m)[0]) &&
                        (forall j :: 0 <= j < i ==> Cell(rows[j], m).None?)
  {
    if Cell(rows[0], m).None? {
      var tail := rows[1..];
      FirstKept(tail, m);
      var i :| 0 <= i < |tail| && Cell(tail[i], m) == Some(DropMissing(tail, m)[0]) &&
        (forall j :: 0 <= j < i ==> Cell(tail[j], m).None?);
      assert Cell(rows[i + 1], m) == Some(DropMissing(rows, m)[0]);
      assert forall j :: 0 <= j < i + 1 ==> Cell(rows[j], m).None? by {
        forall j | 0 < j < i + 1 ensures Cell(rows[j], m).None? {
          assert rows[j] == tail[j - 1];
        }
      }
    } else {
      assert Cell(rows[0], m) == Some(DropMissing(rows, m)[0]);
    }
  }

  /** The last value `dropna` keeps is the cell of the latest row where the metric is present. */
  lemma {:induction false} LastKept(rows: seq<HistoryRow>, m: Metric)
    requires |DropMissing(rows, m)| > 0
    ensures var vs := DropMissing(rows, m);
      exists i :: 0 <= i < |rows| && Cell(rows[i], m) == Some(vs[|vs| - 1]) &&
        forall j :: i < j < |rows| ==> Cell(rows[j], m).None?
  {
    var vs := DropMissing(rows, m);
    var tail := rows[1..];
    var ts := DropMissing(tail, m);
    if |ts| == 0 {
      assert Cell(rows[0], m).Some? && vs == [Cell(rows[0], m).value];
      assert forall j :: 0 < j < |rows| ==> Cell(rows[j], m).None? by {
        forall j | 0 < j < |rows| ensures Cell(rows[j], m).None? {
          assert rows[j] == tail[j - 1];
        }
      }
    } else {
      LastKept(tail, m);
      var i :| 0 <= i < |tail| && Cell(tail[i], m) == Some(ts[|ts| - 1]) &&
        forall j :: i < j < |tail| ==> Cell(tail[j], m).None?;
      assert vs[|vs| - 1] == ts[|ts| - 1];
      assert Cell(rows[i + 1], m) == Some(vs[|vs| - 1]);
      assert forall j :: i + 1 < j < |rows| ==> Cell(rows[j], m).None? by {
        forall j | i + 1 < j < |rows| ensures Cell(rows[j], m).None? {
          assert rows[j] == tail[j - 1];
        }
      }
    }
  }

  // ---------------------------------------------------------------------
  // Sorting by date (`sort_values('Date')`)
  // ---------------------------------------------------------------------

  ghost predicate SortedByDate(s: seq<HistoryRow>) {
    forall i, j :: 0 <= i < j < |s| ==> s[i].date <= s[j].date
  }

  /** No two different rows share a date. */
  ghost predicate DatesAreKeys(s: seq<HistoryRow>) {
    forall x, y :: x in s && y in s && x.date == y.date ==> x == y
  }

  /** `x` placed before the first row of `s` whose date is not earlier. */
  function Insert(x: HistoryRow, s: seq<HistoryRow>): (r: seq<HistoryRow>)
    ensures multiset(r) == multiset(s) + multiset{x}
  {
    if s == [] || x.date <= s[0].date then [x] + s
    else
      assert s == [s[0]] + s[1..];
      [s[0]] + Insert(x, s[1..])
  }

  /** Inserting into a date-sorted sequence keeps it sorted. */
  lemma {:induction false} InsertSorted(x: HistoryRow, s: seq<HistoryRow>)
    requires SortedByDate(s)
    ensures SortedByDate(Insert(x, s))
  {
    if s != [] && s[0].date < x.date {
      var t := Insert(x, s[1..]);
      InsertSorted(x, s[1..]);
      assert Insert(x, s) == [s[0]] + t;
      forall i | 0 <= i < |t| ensures s[0].date <= t[i].date {
        assert t[i] in multiset(t);
        assert t[i] == x || t[i] in multiset(s[1..]);
        if t[i] != x {
          var k :| 0 <= k < |s[1..]| && s[1..][k] == t[i];
          assert s[k + 1] == t[i];
        }
      }
    }
  }

  /** Insertion sort on dates. */
  function SortByDate(s: seq<HistoryRow>): (r: seq<HistoryRow>)
    ensures SortedByDate(r)
    ensures multiset(r) == multiset(s)
  {
    if s == [] then []
    else
      assert s == [s[0]] + s[1..];
      InsertSorted(s[0], SortByDate(s[1..]));
      Insert(s[0], SortByDate(s[1..]))
  }

  /**
   * When dates are keys, a date-sorted arrangement of a set of rows is unique,
   * so the order the sort leaves among equal dates never matters.
   */
  lemma {:induction false} SortedPermutationUnique(a: seq<HistoryRow>, b: seq<HistoryRow>)
    requires SortedByDate(a) && SortedByDate(b)
    requires multiset(a) == multiset(b)
    requires DatesAreKeys(a)
    ensures a == b
  {
    if a == [] {
      assert |b| == |multiset(b)| == 0;
    } else {
      assert b != [] by {
        assert |b| == |multiset(b)| == |multiset(a)| == |a|;
      }
      assert a[0] == b[0] by {
        SortedHeadsEqual(a, b);
      }
      assert a[1..] == b[1..] by {
        TailsPermutation(a, b);
        TailKeepsOrder(a);
        TailKeepsOrder(b);
        SortedPermutationUnique(a[1..], b[1..]);
      }
      assert a == [a[0]] + a[1..];
      assert b == [b[0]] + b[1..];
    }
  }

  lemma SortedHeadsEqual(a: seq<HistoryRow>, b: seq<HistoryRow>)
    requires SortedByDate(a) && SortedByDate(b)
    requires multiset(a) == multiset(b)
    requires DatesAreKeys(a)
    requires a != [] && b != []
    ensures a[0] == b[0]
  {
    assert a[0] in multiset(b) && b[0] in multiset(a);
    var k :| 0 <= k < |b| && b[k] == a[0];
    var n :| 0 <= n < |a| && a[n] == b[0];
    assert a[0].date <= a[n].date;
    assert b[0].date <= b[k].date;
    assert a[n] in a;
  }

  lemma TailsPermutation(a: seq<HistoryRow>, b: seq<HistoryRow>)
    requires multiset(a) == multiset(b)
    requires a != [] && b != [] && a[0] == b[0]
    ensures multiset(a[1..]) == multiset(b[1..])
  {
    assert a == [a[0]] + a[1..] && b == [b[0]] + b[1..];
    assert multiset(a) == multiset{a[0]} + multiset(a[1..]);
    assert multiset(b) == multiset{b[0]} + multiset(b[1..]);
    assert multiset(a[1..]) == multiset(a) - multiset{a[0]};
    assert multiset(b[1..]) == multiset(b) - multiset{b[0]};
  }

  lemma TailKeepsOrder(a: seq<HistoryRow>)
    requires a != []
    ensures SortedByDate(a) ==> SortedByDate(a[1..])
    ensures DatesAreKeys(a) ==> DatesAreKeys(a[1..])
  {
  }
}
