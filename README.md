# SkyAware air-quality query service, modelled in Dafny

The service loads two sheets of a workbook once: a **Summary** sheet with one
current reading per US state (surface pressure, maximum and minimum
formaldehyde column density), and a **HistoryData** sheet of dated readings per
state, where any metric cell may be empty. It answers three read-only queries:

- `GET /api/states`: the state names of the Summary sheet, in sheet order;
- `POST /api/state`: the reading of one state, with errors for a missing or
  empty state name and for a state without a Summary row;
- `GET /api/history/<state>`: that state's rows sorted by date, as four
  parallel series (dates and the three metrics, empty cells shown as 0), plus a
  trend report. The report is an insufficient-data marker when the state has
  fewer than two rows. Otherwise it holds, for each metric with at least two
  present values, the first and last present value, the change, the change in
  percent (0 when the first value is 0) and the direction. When the
  maximum-formaldehyde entry exists, an air-quality summary copies its
  direction.

The model keeps the two sheets as sequences of rows: `Tables.SummaryRow` and
`Tables.HistoryRow`. An empty cell is `None`, a metric value is a `real`, and a
date is an integer key that only needs to be ordered. The pandas column
operations become recursive functions in module `Tables`: the boolean-mask
selection, `dropna`, `fillna(0)`, `sort_values` and the first matching row.
The trend calculation in module `Trends` fills a dictionary metric by metric,
as the source does. It is written as a method with a `for` loop and a map
accumulator, and proved equal to the function `Trends.TrendsOf`. The lemmas
beside it state what that function promises. The three endpoints in module
`Server` are functions over the tables, because the source only filters,
sorts and maps there.

Files: `wrappers.dfy` (the `Option` type), `tables.dfy`, `trends.dfy`,
`server.dfy`.

## Model

| member | source | states |
|---|---|---|
| `Tables.RowsOf` | server.py:58-60 | every selected row has the requested state; the selection is empty iff no row has that state |
| `Tables.RowsOfCounts` | server.py:58 | the selection holds each row of the requested state as many times as the table does, and no other row |
| `Tables.FirstMatch` | server.py:40-46 | yields no index iff no Summary row has the state; otherwise the index of a row with that state and no earlier such row |
| `Tables.StateColumn` | server.py:28 | one name per Summary row, position by position the row's state |
| `Tables.DropMissing` | server.py:97 | keeps at most as many values as there are rows, and none exactly when every cell of the metric is empty |
| `Tables.FillMissing` | server.py:69-71 | one value per row: the cell's value when present, 0 when empty |
| `Tables.DateColumn` | server.py:68 | one date per row, position by position the row's date |
| `Tables.DropMissingAtLeastTwo` | server.py:97-98 | at least two values survive `dropna` iff two different rows have the metric present |
| `Tables.FirstKept` | server.py:97-100 | the first kept value is the cell of the earliest row where the metric is present |
| `Tables.LastKept` | server.py:97-101 | the last kept value is the cell of the latest row where the metric is present |
| `Tables.Insert` | server.py:64 | inserting a row adds exactly that row to the multiset of rows |
| `Tables.InsertSorted` | server.py:64 | inserting into a date-sorted sequence leaves it date-sorted |
| `Tables.SortByDate` | server.py:64 | the result is non-decreasing by date and a permutation of the input |
| `Tables.SortedPermutationUnique` | server.py:64 | when no two different rows share a date, two date-sorted permutations of the same rows are equal |
| `Trends.CalculateTrends` | server.py:85-121 | the loop over the three metrics builds exactly `TrendsOf(rows)`: the marker iff fewer than two rows; an entry for a metric iff more than one present value; the air-quality entry iff the maximum-formaldehyde entry exists, with that entry's direction and the absolute change percentage |
| `Trends.TrendsOf` | server.py:85-121 | the report is the insufficient-data marker exactly when there are fewer than two rows; otherwise its entries are only for the three metric columns |
| `Trends.ReportShape` | server.py:87-117 | the same shape facts stated of `TrendsOf`, for use by the endpoint functions |
| `Trends.EntryIffTwoPresent` | server.py:95-98 | with two or more rows, a metric has an entry iff two rows have it present; otherwise it is left out with no error entry |
| `Trends.EmittedEntry` | server.py:97-110 | an entry's first and last values are the cells of the earliest and latest rows with the metric present; change is last minus first; the percentage is change / first * 100 when first is nonzero and 0 otherwise; the direction is increasing iff change > 0, decreasing iff change < 0, stable iff change = 0 |
| `Server.GetStates` | server.py:25-30 | the list has one name per Summary row, in sheet order |
| `Server.ReceiveState` | server.py:32-46 | an absent or empty state gives the missing-state error, and nothing else does; the not-found error names the state and is given iff no Summary row has it; otherwise the reading is the unchanged triple of the first row with that state |
| `Server.StateError` | server.py:37-42 | the missing-state text is "No state provided."; the not-found text is "No data found for ", then the requested state, then a period |
| `Server.SortedHistory` | server.py:58-64 | the rows of the state, sorted by date, each with its multiplicity in the sheet |
| `Server.GetHistory` | server.py:54-80 | not found, naming the state, iff no HistoryData row has it; otherwise four series whose length is the number of the state's rows; dates non-decreasing; each metric series holds the sorted row's value or 0 at every position; the trends are those of the sorted rows with their empty cells, not of the zero-filled series |
| `Server.HistoryError` | server.py:60-61 | the not-found text is "No historical data found for ", then the requested state, then a period |
| `Server.HistoryLength` | server.py:58-71 | the sorted history of a state has as many rows as the selection |
| `Server.HistoryOrderDetermined` | server.py:58-64 | when each state has at most one row per date, every date-sorted arrangement of the state's rows is the one returned, so the series and trends do not depend on tie order |
| `Server.TexasExample` | server.py:54-119 | Texas with maximum formaldehyde 10 on 2023-01-01 and 15 on 2023-06-01, stored out of order beside another state: dates and series in date order, entry (10, 15, 5, 50 %, increasing) and air-quality summary (increasing, 50) |
| `Server.TexasRows` | server.py:58 | the example's selection keeps the two Texas rows in sheet order |
| `Server.TexasSorted` | server.py:64 | the example's sort puts January before June |
| `Server.TexasTrends` | server.py:85-119 | the example's trend report |
| `Server.SingleRowExample` | server.py:69-88 | one row with empty surface pressure: the series shows 0, and the report is the insufficient-data marker |
| `Server.ZeroFirstValueExample` | server.py:103 | first value 0 and last value 5: change 5, percentage 0 |
| `Server.AllMissingExample` | server.py:87-98 | two rows with every cell empty: an empty report, not the marker |
| `Server.MissingMiddleExample` | server.py:69-103 | an empty middle reading is 0 in the series but skipped by the trend, which runs from 100 to 90 |

## Left out

- HTTP plumbing is not modelled: Flask routing, CORS, serving `index.html`, the port setting, `request.get_json` and `jsonify`. The model takes the request's `state` field as an optional string and returns datatypes in place of JSON bodies.
- Request bodies that are not JSON or not an object are not modelled. In the source these raise inside `receive_state`, which has no handler.
- A `state` field that is not a string is not modelled. In the source a falsy value (`0`, `false`, an empty list or object) gives "No state provided.". A truthy number, boolean or object matches no row of the mask and gives the not-found error. Only a list whose length differs from the sheet's raises, in the comparison.
- Loading the workbook is not modelled: the file-existence check, `read_excel` and `to_datetime`. Both sheets are given as sequences, with every column present and every date defined.
- The catch-all `except` branches of `get_states` and `get_history` return the text of an arbitrary library exception. With well-formed tables the modelled operations cannot fail, so the model has no `Unexpected` result.
- IEEE floating point and NaN are not modelled. Metrics are exact reals and empty cells are `None`. Summary cells are always present.
- Trends.AirQualityTrend: the description sentence is represented by its two inputs, the direction and the absolute change percentage. The one-decimal rendering (`:.1f`) is not modelled.
- Server.GetHistory: dates are returned as ordered keys, not as `YYYY-MM-DD` strings. The `strftime` formatting is not modelled.
- Server.GetHistory: `sort_values` uses a sort that is not guaranteed stable, so the contract promises only date order and permutation, not an order among equal dates. The model's insertion sort happens to be stable. `Server.HistoryOrderDetermined` shows that the order among equal dates cannot matter when a state has at most one row per date.
- The check that the metric column exists (`metric in state_history.columns`) is not modelled. The three metric columns are fixed.
