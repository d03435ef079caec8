# Artwork table selection, modelled in Dafny

This project models the selection logic of the `ArtworkTable` React component
(src/components/ArtworkTable.tsx). The table shows one lazily fetched page of
artworks at a time. It keeps a set of selected artwork ids that survives page
changes. The user changes that set in three ways:

- a row selection change, reconciled into the set for the loaded page only;
- the header "select all on this page" box;
- a "select first N" action. This walks the remote collection 100 ids at a
  time, from page 1, and replaces the whole selection with the first N ids.

Files:

- `wrappers.dfy`: `Option`, for the source's `null`/`undefined`.
- `selection.dfy` (module `Selection`):
  - the `Artwork` record;
  - the set-level meaning of the two page-scoped events (`Reconcile`, `SelectAllOnPage`);
  - the two derived views (`CurrentPageSelection`, `IsAllOnPageSelected`);
  - the loops that build the new set as the handlers do.
- `bulk_select.dfy` (module `BulkSelect`):
  - the id-only page source, a list of answers where a page past its end fails;
  - the walk, as a step function (`Walk`) and as the loop method `CollectFirstN`;
  - `Reachable`, an independent description of the ids the walk can see;
  - the lemmas that connect `Walk` and `Reachable`.
- `format.dfy` (module `Format`): `truncate` and the page number of the display fetch.
- `artwork_table.dfy` (module `Component`): the component as a class whose
  fields are its state (`artworks`, `selectedIds`, `loading`, `totalRecords`,
  `first`, `rows`, `numSelect`). Each handler is a method that reassigns them.

Two behaviours of the code worth knowing:

- A row selection event adds every id it lists, even one that is not on the
  loaded page. So "ids outside the page are untouched" holds only for ids the
  event does not list.
- The bulk walk counts every id it takes, repeats included. On a source that
  repeats an id, fewer than min(N, total) distinct ids can be selected
  (`RepeatedIdsAreCounted`: one page `[7, 7, 8]` with N = 2 selects only 7).
  `HealthySelectsFirstN` therefore assumes distinct ids.

## Model

| member | source | states |
|---|---|---|
| `Selection.Reconcile` | src/components/ArtworkTable.tsx:67-85 | after a selection event, a page id is selected iff the event lists it; an off-page id is selected iff it was before or the event lists it; off-page selections are never dropped |
| `Selection.ReconciledSelection` | src/components/ArtworkTable.tsx:70-83 | the add-then-delete loops over the event records (`EventRecords`, i.e. `e.value ?? []`) and the page ids build exactly `Reconcile` of the old set |
| `Selection.SelectAllOnPage` | src/components/ArtworkTable.tsx:124-132 | checked puts every page id in the set, unchecked takes every page id out, and no other id changes membership |
| `Selection.ToggledAll` | src/components/ArtworkTable.tsx:125-131 | the add/delete loop over the page records builds exactly `SelectAllOnPage` of the old set |
| `Selection.SelectAllOnPageIdempotent` | src/components/ArtworkTable.tsx:124-132 | toggling the header box twice with the same flag equals toggling it once |
| `Selection.SelectAllOnThenOff` | src/components/ArtworkTable.tsx:124-132 | checking then unchecking the header box leaves the old set minus the page ids |
| `Selection.SelectAllIsReconcile` | src/components/ArtworkTable.tsx:67-132 | the header box gives the same set as a selection event listing the whole page (checked) or nothing (unchecked) |
| `Selection.CurrentPageSelection` | src/components/ArtworkTable.tsx:151-153 | the checked rows are exactly the loaded records whose ids are selected, and there are no more of them than loaded records |
| `Selection.CurrentPageSelectionIsSubsequence` | src/components/ArtworkTable.tsx:151-153 | the checked rows are an order-preserving subsequence of the loaded page |
| `Selection.CurrentPageSelectionAppend` | src/components/ArtworkTable.tsx:151-153 | the checked rows of a page split in two are the two parts' checked rows joined in order |
| `Selection.NoneSelectedShowsNothing` | src/components/ArtworkTable.tsx:151-153 | a page with no selected id shows no checked row |
| `Selection.AllSelectedShowsWholePage` | src/components/ArtworkTable.tsx:151-153 | when every loaded id is selected, every loaded row is shown checked, in page order |
| `Selection.IsAllOnPageSelected` | src/components/ArtworkTable.tsx:121-122 | the header box condition: never checked on an empty page, otherwise checked iff every loaded id is selected; `AllOnPageSelectedIffShownIsPage` ties it to the checked rows |
| `Selection.AllOnPageSelectedIffShownIsPage` | src/components/ArtworkTable.tsx:121-122 | the header box reads checked iff the page is non-empty and every loaded row is shown checked |
| `Selection.CheckedPageIsAllSelected` | src/components/ArtworkTable.tsx:121-132 | after checking the header box on a non-empty page, the box reads checked |
| `Selection.UncheckedPageShowsNothing` | src/components/ArtworkTable.tsx:124-153 | after unchecking the header box, no row of the page is shown checked |
| `BulkSelect.Absorb` | src/components/ArtworkTable.tsx:102-109 | the inner `for` with its `break`: it only adds ids and raises the counter by at most the page size, never past N; `AbsorbTakesPrefix` gives its exact result |
| `BulkSelect.AbsorbTakesPrefix` | src/components/ArtworkTable.tsx:102-109 | the inner loop over one page adds exactly the page's first min(page size, N - counter) ids and counts them |
| `BulkSelect.Walk` | src/components/ArtworkTable.tsx:96-116 | the outer `while` from a given page and counter: the selection only grows, the counter never passes N, at least one request is made while the counter is below N and none once it is reached; `WalkTakesPrefix` gives its exact result |
| `BulkSelect.WalkTakesPrefix` | src/components/ArtworkTable.tsx:96-116 | from any page and counter, the walk adds exactly the next min(reachable, N - counter) reachable ids in source order |
| `BulkSelect.BulkSelection` | src/components/ArtworkTable.tsx:92-117 | the walk from page 1 with nothing collected: for N of at most 0 it makes no request and collects nothing; otherwise it makes at least one request and counts at most N ids; `BulkSelectionIsFirstN` says which ids |
| `BulkSelect.BulkSelectionIsFirstN` | src/components/ArtworkTable.tsx:92-117 | the walk selects the first min(N, reachable) ids of the reachable pages in source order, and the counter equals that number |
| `BulkSelect.BulkSelectionBounded` | src/components/ArtworkTable.tsx:96-109 | the counter never exceeds N, and the collected set is no larger than the counter |
| `BulkSelect.RepeatedIdsAreCounted` | src/components/ArtworkTable.tsx:102-106 | the counter counts repeated ids: one page [7, 7, 8] with target 2 ends with counter 2, one request, and the single id 7 selected |
| `BulkSelect.ElemsBound` | src/components/ArtworkTable.tsx:104 | a run of ids never yields more distinct ids than entries |
| `BulkSelect.ElemsOfDistinct` | src/components/ArtworkTable.tsx:104 | a run of distinct ids yields exactly as many set members as entries |
| `BulkSelect.HealthyReachesRest` | src/components/ArtworkTable.tsx:96-116 | on a source with no failures and `next_url` on every page but the last, the walk can reach every id of every page |
| `BulkSelect.HealthySelectsFirstN` | src/components/ArtworkTable.tsx:92-117 | on such a source with distinct ids, the selection is exactly the first min(N, total) ids in source order, and has that size |
| `BulkSelect.ReachableStopsAtFailure` | src/components/ArtworkTable.tsx:112-115 | a failed request for page j makes the reachable ids exactly those of pages 1 .. j-1 |
| `BulkSelect.InterruptedWalkKeepsEarlierPages` | src/components/ArtworkTable.tsx:112-117 | a walk that hits a failed request still installs the first ids of the pages fetched before it |
| `BulkSelect.WalkStopsAt` | src/components/ArtworkTable.tsx:110-115 | from any page, no request goes past the first page that fails or has no `next_url` |
| `BulkSelect.BulkSelectionStopsAt` | src/components/ArtworkTable.tsx:110-115 | the walk requests no page after the first one that fails or has no `next_url` |
| `BulkSelect.WalkStopsOnceFull` | src/components/ArtworkTable.tsx:96-111 | from any page, once the pages up to j hold enough ids to reach N, no page after j is requested |
| `BulkSelect.BulkSelectionStopsOnceFull` | src/components/ArtworkTable.tsx:96-111 | when pages 1 .. j hold at least N ids, no page after j is requested |
| `BulkSelect.CollectFirstN` | src/components/ArtworkTable.tsx:92-116 | the while loop with its inner `for` and `break`s returns the set, counter and request count of `BulkSelection` |
| `Format.Truncate` | src/components/ArtworkTable.tsx:161-164 | a missing or empty value shows "-"; a value that fits is shown unchanged; a longer one shows its first `max` characters and an ellipsis, never more than `max + 1` characters for a non-negative `max` |
| `Format.CellText` | src/components/ArtworkTable.tsx:223-229 | a row's artist or inscriptions cell is its `artist_display` or `inscriptions` field truncated at the default width of 80: a missing or empty field shows "-", a text that fits is shown unchanged, and a longer one shows its first 80 characters followed by "…" |
| `Format.TruncateIdempotent` | src/components/ArtworkTable.tsx:161-164 | with `max` at least 1, truncating a truncated text changes nothing |
| `Format.RequestedPage` | src/components/ArtworkTable.tsx:34 | a page is given exactly when `rows` is positive and the window start is a multiple of it; the window then starts at (page - 1) * rows, and the page is at least 1 for a non-negative start |
| `Component.ArtworkTable.constructor` | src/components/ArtworkTable.tsx:22-29 | the component mounts with no records, no selection, the spinner on, total 0, window (0, 12) and target 10 |
| `Component.ArtworkTable.Shown` | src/components/ArtworkTable.tsx:151-153 | the rows given to the table as checked: exactly the loaded records whose ids are selected (`CurrentPageSelection` of the state) |
| `Component.ArtworkTable.OnPageChange` | src/components/ArtworkTable.tsx:62-65 | the paginator sets the window start and page size and changes neither the selection nor the loaded records |
| `Component.ArtworkTable.BeginPageFetch` | src/components/ArtworkTable.tsx:32-44 | the display fetch shows the spinner and asks for page `first / rows + 1` with `rows` records; the selection is untouched |
| `Component.ArtworkTable.FinishPageFetch` | src/components/ArtworkTable.tsx:46-59 | a loaded page replaces the records and total wholesale; a failure leaves an empty page and total 0; the spinner is hidden; the selection and window are untouched |
| `Component.ArtworkTable.OnSelectionChange` | src/components/ArtworkTable.tsx:67-85 | the new selection is `Reconcile` of the old one with the loaded page's ids and the event's ids (`e.value ?? []`) |
| `Component.ArtworkTable.OnSelectAllChange` | src/components/ArtworkTable.tsx:124-132 | the new selection is `SelectAllOnPage` of the old one, with `!!e.checked` as the flag |
| `Component.ArtworkTable.SetNumSelect` | src/components/ArtworkTable.tsx:173 | the target input stores its value, or no target when cleared |
| `Component.ArtworkTable.HandleRecords` | src/components/ArtworkTable.tsx:87-119 | with no target or a target below 1, nothing is fetched and nothing changes. Otherwise the walk's set replaces the old selection, it is not merged, the request count is the walk's, and the spinner ends hidden |
| `Component.RevisitPage` | src/components/ArtworkTable.tsx:32-65 | navigating away and back leaves the selection as it was, and every reloaded record whose id was selected shows checked again |

## Left out

- Rendering is not modelled: the JSX and the PrimeReact components (`DataTable`, `Column`, `OverlayPanel`, `InputNumber`, `Checkbox`, `Card`, `ProgressSpinner`), the CSS import, `op.current?.hide()` and `toggle()`. The per-column fallbacks (`row.place_of_origin || "-"`, `row.date_start ?? "-"`) are display only and left out too.
- HTTP is not modelled: the axios calls, the URL and field-list strings, and `console.error`. The display fetch is split into `BeginPageFetch`, which returns the page to request, and `FinishPageFetch`, which takes the response as a parameter. The bulk walk reads its pages from a list of answers given as a parameter.
- React scheduling is not modelled: `useState` batching, `useEffect` re-runs and the interleaving of a running bulk walk with page navigation. Each handler is one atomic step, so the race in which a finishing walk overwrites selections made during it cannot occur in the model.
- The `limit=100` of the bulk requests is not modelled: the answers of the source are taken as given, whatever their size.
- The bulk source is finite, and a request for a page past its end fails. A real endpoint that kept answering empty pages with a `next_url` would keep the source's loop running forever; the model does not cover that.
- Format.RequestedPage: gives no page for any `rows <= 0` or any `first` that is not a multiple of `rows`. The 12/24/60 paginator never produces these. The source would still request something there (a fraction, `NaN`, or page 1 for `first = 0, rows = -12`), and the model does not follow it.
- Ids and targets are unbounded integers. JavaScript numbers are doubles, and a non-integer target from the input box is not modelled.
- Format.Truncate: counts Unicode scalar values, while JavaScript's `length` and `slice` count UTF-16 code units. On text outside the Basic Multilingual Plane the cut-off test and the cut point therefore differ from the source's, and a split surrogate pair is not modelled. For example, 79 BMP characters plus one emoji has JavaScript length 81 and is cut there, while the model counts 80 and shows it unchanged.
- src/types.ts (the `Artwork` type) is not part of this model. The record's fields follow the field list of the display fetch.
- src/App.tsx only mounts the component; it has no logic to model.
