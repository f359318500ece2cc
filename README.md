# Cross-page row selection of the artworks table

This project models the selection logic of a React table that lazily pages
through the Art Institute of Chicago artworks catalog (`src/App.tsx`). The
table keeps three pieces of state that matter for selection:

- the set of selected catalog ids (`selectedIds`);
- an optional carry-over `{startPage, remaining}` of a bulk "select the first N
  rows" request (`pendingSelection`);
- the rows of the page on display (`products`).

Three handlers change this state:

- the table's selection-change event (`onSelectionChange`);
- the submission of the bulk-selection input (`handleOverlayOk`);
- the carry-over step that runs when a fetched page arrives (inside
  `fetchTableData`).

The model also covers how a fetched catalog record becomes a displayed row,
and how the paginator's 0-based page event becomes the table's 1-based page
number.

Files:

- `wrappers.dfy`: the `Option` datatype.
- `catalog.dfy`: JavaScript field values and their truthiness, raw records,
  rows, and the record-to-row mapping with its defaults and ordinals.
- `paging.dfy`: the pagination window, the page-change conversion, and the
  page-number/offset agreement it keeps.
- `selection.dfy`: the selection coordinator as values. It has the three
  transitions `ManualChange`, `Bulk` and `Continue`, the rows shown checked,
  and the lemmas about them: idempotence, the single-toggle lemmas, the bulk
  and carry-over laws, inertness of an exhausted carry-over, the cross-page
  guarantee, and the worked example.
- `app.dfy`: the component as a class `Table` whose fields are the React
  state. Its handlers copy the id set, update the copy with the source's
  loops (`AddFirst`, `Reconcile`, `FindById`), and replace the fields. Each
  handler is proved against the transition it performs.

Each fetch completion is one atomic step. The fetched page arrives as a
parameter, together with the window the fetch was issued for. `None` stands
for a request that failed.

Two behaviours of the code are easy to miss:

- A carry-over that has taken its last row is not cleared. It stays as
  `{startPage: page + 1, remaining: 0}`, and the `remaining > 0` guard
  (src/App.tsx:62) makes it inert (`Selection.ExhaustedIsInert`).
- Only a falsy count is rejected (src/App.tsx:120). A negative count
  therefore still clears the input. It selects nothing and creates no
  carry-over.

## Model

| member | source | states |
|---|---|---|
| `Catalog.ToRow` | src/App.tsx:49-58 | id, title and place of origin are copied unchanged. Artist, inscriptions, start and end date are always truthy. Each equals the record's field exactly when that field is truthy, and is "Unknown" or "-" otherwise (so a year 0 shows "-"). |
| `Catalog.MapPage` | src/App.tsx:49-51 | One row per record, in order. Row i is built from record i, keeps its id, and has ordinal first + i + 1, where first is the offset of the window the fetch was issued for. |
| `Catalog.Truthy` | src/App.tsx:54-57 | Exactly five values are falsy: undefined, null, false, 0 and the empty string. |
| `Catalog.OrElse` | src/App.tsx:54-57 | `v \|\| fallback` is `v` when `v` is truthy, and the fallback string otherwise. It is truthy exactly when `v` is truthy or the fallback is non-empty. |
| `Paging.OnPageConsistent` | src/App.tsx:96-103 | For an event the paginator emits, the resulting 1-based page number equals offset / page size + 1. |
| `Paging.InitialConsistent` | src/App.tsx:13-17 | The initial window (offset 0, 12 rows, page 1) satisfies the same agreement. |
| `Paging.OnPage` | src/App.tsx:96-103 | The offset and page size are taken from the event. The page number is at least 1 exactly when the event's 0-based page is at least 0. `Paging.OnPageConsistent` carries the page/offset agreement. |
| `Selection.IdsOfMembers` | src/App.tsx:148 | An id belongs to the ids of a sequence of rows exactly when some row carries it. Selection is keyed by id. |
| `Selection.Collected` | src/App.tsx:125 | The collecting loop runs zero times for a non-positive limit. Otherwise it runs the smaller of the limit and the number of rows. |
| `Selection.IdsOf` | src/App.tsx:108 | The selection entries of a sequence of rows are their ids. Two rows with the same id are one entry. `Selection.IdsOfMembers` and `Selection.IdsOfAtMost` carry its contract. |
| `Selection.IdsOfAtMost` | src/App.tsx:126 | A sequence of rows has at most as many distinct ids as rows. |
| `Selection.ManualChange` | src/App.tsx:105-116 | Every checked id becomes selected. Every page id that no checked row carries becomes unselected. Every other id keeps its membership. The carry-over is untouched. |
| `Selection.ManualChangeIdempotent` | src/App.tsx:105-116 | Reporting the same checked rows twice against the same page gives the same state as reporting them once. |
| `Selection.SelectedRows` | src/App.tsx:148 | The checked rows are a subsequence of the page, in page order. A row is among them exactly when it is on the page and its id is selected. `Selection.SelectedRowsMultiplicity` fixes how many copies are kept. |
| `Selection.SelectedRowsMultiplicity` | src/App.tsx:148 | Each row occurs among the checked rows as often as on the page when its id is selected, and not at all otherwise. |
| `Selection.IdsOfSelectedRows` | src/App.tsx:148 | The ids shown checked are the page ids that are selected. |
| `Selection.SelectionSurvivesRefetch` | src/App.tsx:148 | Two pages with the same ids in the same order show the same ids checked, in the same order, whatever their other fields. A refetched page keeps its checks. |
| `Selection.ManualChangeEchoIsNoop` | src/App.tsx:105-116 | Reporting back exactly the rows shown checked changes nothing. |
| `Selection.ManualChangeUncheckOne` | src/App.tsx:110-114 | Unticking one visible row removes exactly that id. |
| `Selection.ManualChangeCheckOne` | src/App.tsx:108 | Ticking one visible row adds exactly that id. |
| `Selection.BulkSpec` | src/App.tsx:119-137 | A bulk request never removes an id. A non-positive count changes nothing. Otherwise the ids added are those of the first min(count, page length) rows. The carry-over becomes {page + 1, count - page length} when the page is too short, and stays as it was otherwise. |
| `Selection.BulkAddsExactlyCount` | src/App.tsx:122-135 | On a page of at least count rows with distinct, unselected ids, exactly count ids are added and no carry-over is created. |
| `Selection.BulkCountsSelectedRows` | src/App.tsx:125-128 | Rows that are already selected still count towards N: on a page of at least N rows whose ids are all selected, a bulk request changes nothing and creates no carry-over. |
| `Selection.Bulk` | src/App.tsx:122-135 | No id is removed, and only ids of the displayed page are added. The carry-over is {page + 1, count - page length} when the page is too short, and is kept otherwise. `Selection.BulkSpec` carries the exact ids added and the no-op for a non-positive count. |
| `Selection.DistinctIdsCount` | src/App.tsx:148 | Rows with distinct ids contribute one selection entry each. |
| `Selection.ContinueSpec` | src/App.tsx:59-81 | A fetched page changes nothing unless a carry-over exists, the page is at or after its start page, and it still owes rows. Otherwise the page's first min(remaining, rows) ids are added, nothing is removed, and the carry-over is re-anchored at page + 1. It then owes the old remainder minus the rows taken, which is never negative. |
| `Selection.Active` | src/App.tsx:60-62 | The guard of the carry-over step. `Selection.ActiveOnLaterPages` and `Selection.ContinueSpec` carry its meaning. |
| `Selection.ActiveOnLaterPages` | src/App.tsx:60-62 | A carry-over that applies to a page applies to every later page. One that owes nothing applies to none. |
| `Selection.Continue` | src/App.tsx:59-81 | No id is removed, and only ids of the fetched page are added. Without an applicable carry-over the state is unchanged. Otherwise the carry-over is re-anchored at page + 1, and its remainder stays non-negative and does not grow. `Selection.ContinueSpec` carries the exact ids added and the exact remainder. |
| `Selection.ExhaustedIsInert` | src/App.tsx:59-63 | A carry-over that owes 0 rows leaves every later page's arrival without effect. |
| `Selection.TransitionsKeepPendingValid` | src/App.tsx:77-80 | All three transitions keep the carry-over's remainder non-negative. |
| `Selection.ContinueAllTakes` | src/App.tsx:59-81 | Consecutive pages that arrive after a carry-over anchored no later than the first of them together take their first `remaining` rows in order. The remainder drops by the number taken. |
| `Selection.BulkAcrossPages` | src/App.tsx:130-135 | A bulk request for N rows on a short page, followed by the next pages in order, selects exactly the first N rows of the catalog from that page on (or all of them, if there are fewer). The carry-over then owes the shortfall. |
| `Selection.WorkedExample` | src/App.tsx:59-81 | Count 20 on page 1 (ids 1..12) gives carry-over {2, 8}. Page 2 (ids 13..24) adds 13..20 and leaves {3, 0}. Page 3 changes nothing. |
| `Selection.WorkedExampleFirstPage` | src/App.tsx:119-135 | Count 20 on twelve rows with ids 1..12 selects 1..12 and leaves the carry-over {2, 8}. |
| `Selection.WorkedExampleSecondPage` | src/App.tsx:59-81 | The carry-over {2, 8} on page 2 with ids 13..24 selects 13..20 and leaves {3, 0}. |
| `App.FindById` | src/App.tsx:111 | Nothing is found exactly when no row carries the id. Otherwise the first row carrying the id is found. |
| `App.CountGiven` | src/App.tsx:120 | The bulk input is acted on unless it is absent or zero. A negative count passes. |
| `App.AddFirst` | src/App.tsx:122-128 | The loop adds the ids of the first Collected(limit, rows) rows to the copied set and counts them. |
| `App.Reconcile` | src/App.tsx:105-114 | The two `forEach` loops compute the id set of `ManualChange`. |
| `App.Table.constructor` | src/App.tsx:11-21 | Initial state: no rows, the initial window, no input count, no selected ids, no carry-over. |
| `App.Table.CheckedRows` | src/App.tsx:148 | The rows given to the table as its selection are a subsequence of the displayed rows, in page order. Each displayed row occurs in them as often as on the page when its id is selected, and not at all otherwise. |
| `App.Table.OnPage` | src/App.tsx:96-103 | The window becomes the conversion of the paginator event. |
| `App.Table.SetSelectCount` | src/App.tsx:181 | The input count becomes the entered value. |
| `App.Table.OnSelectionChange` | src/App.tsx:105-117 | The new state is `ManualChange` of the old state, the reported rows and the displayed page. |
| `App.Table.HandleOverlayOk` | src/App.tsx:119-140 | A falsy count leaves selection, carry-over and input unchanged. Any other count makes the state `Bulk` of the old state on the displayed page and clears the input. |
| `App.Table.ContinuePending` | src/App.tsx:59-81 | The new state is `Continue` of the old state on the fetched page. |
| `App.Table.FetchCompleted` | src/App.tsx:42-90 | A failed fetch changes nothing. A successful one displays the mapped rows, numbered from the request's offset, and applies `Continue` for the request's page. |
| `App.WorkedScenario` | src/App.tsx:119-140 | Driving the handlers through the worked example leaves ids 1..20 selected and the carry-over at {3, 0}. |
| `App.ScenarioBulkOnFirstPage` | src/App.tsx:119-140 | A new table that fetches page 1 and then gets a request for 20 rows ends in the `Bulk` state for that page, still showing page 1. |

## Left out

- The HTTP request and the response's JSON shape beyond the mapped fields are not modelled. A fetched page is a parameter; `None` stands for a request that failed, or a response that failed to parse before any state was set. The `catch` branch only logs.
- A response without a `pagination` field throws after the rows and the selection have been set. Because the total count is not modelled, that case is the same as a success here.
- The `loading` flag and the total record count are left out. Selection never reads them.
- React rendering, the `useEffect` that issues a fetch on every window change, the table, column, overlay, number-input and button widgets, showing and hiding the overlay, and the header template are UI and foreign library code. They are not modelled.
- Stale closures and overlapping fetches are left out. In the source, a completed fetch works from the selection and carry-over as they stood when the fetch was issued. A later-resolving response can overwrite an earlier one. The model runs each completion atomically on the current state.
- NaN, fractional numbers and object-valued fields are not modelled. Field values are undefined, null, booleans, integers and strings. The bulk count is an integer or absent.
- JavaScript numbers are doubles, and the model's integers are unbounded. Ids, counts, `collected++` and `selectCount - collected` stay exact here even above 2^53, where the source would start rounding.
- Selection.ContinueAllTakes: does not state the start page of a carry-over whose remainder reached 0 on a later page.
