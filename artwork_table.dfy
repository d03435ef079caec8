/**
 * The state of the artwork table component and its handlers. Each handler is
 * one atomic step: the page window, the loaded page, the loading flag, the
 * bulk target and the selection are fields that the handlers reassign.
 */
module Component {
  import opened Wrappers
  import opened Selection
  import opened BulkSelect
  import opened Format

  /** The answer of the display fetch: the page's records and the server's total, or a failure. */
  datatype PageResponse = PageLoaded(data: seq<Artwork>, total: int) | PageFailed

  class ArtworkTable {
    var artworks: seq<Artwork>
    var selectedIds: set<int>
    var loading: bool
    var totalRecords: int
    var first: int
    var rows: int
    var numSelect: Option<int>

    /** The component as it mounts: nothing loaded or selected, 12 rows per page, target 10. */
    constructor ()
      ensures artworks == [] && selectedIds == {} && loading && totalRecords == 0
      ensures first == 0 && rows == 12 && numSelect == Some(10)
    {
      artworks := [];
      selectedIds := {};
      loading := true;
      totalRecords := 0;
      first := 0;
      rows := 12;
      numSelect := Some(10);
    }

    /** The rows shown as checked: the loaded records whose ids are selected. */
    function Shown(): (shown: seq<Artwork>)
      reads this
      ensures forall a :: a in shown <==> a in artworks && a.id in selectedIds
    {
      CurrentPageSelection(artworks, selectedIds)
    }

    /** The paginator moved: a new window start and page size; nothing else changes. */
    method OnPageChange(eventFirst: int, eventRows: int)
      modifies this`first, this`rows
      ensures first == eventFirst && rows == eventRows
      ensures selectedIds == old(selectedIds) && artworks == old(artworks)
    {
      first := eventFirst;
      rows := eventRows;
    }

    /**
     * The start of the display fetch that runs whenever the window changes:
     * the spinner is shown, and the page number and page size to request are
     * returned (the page number only when it is a whole number).
     */
    method BeginPageFetch() returns (page: Option<int>, limit: int)
      modifies this`loading
      ensures loading
      ensures page == RequestedPage(first, rows) && limit == rows
      ensures selectedIds == old(selectedIds) && artworks == old(artworks)
    {
      loading := true;
      page := RequestedPage(first, rows);
      limit := rows;
    }

    /**
     * The end of the display fetch: a loaded page replaces the records and the
     * total wholesale, a failure leaves an empty page with total 0; the spinner
     * is hidden. The selection is not touched either way.
     */
    method FinishPageFetch(response: PageResponse)
      modifies this`artworks, this`totalRecords, this`loading
      ensures response.PageLoaded? ==> artworks == response.data && totalRecords == response.total
      ensures response.PageFailed? ==> artworks == [] && totalRecords == 0
      ensures !loading
      ensures selectedIds == old(selectedIds) && first == old(first) && rows == old(rows)
    {
      match response {
        case PageLoaded(data, total) =>
          artworks := data;
          totalRecords := total;
        case PageFailed =>
          artworks := [];
          totalRecords := 0;
      }
      loading := false;
    }

    /**
     * A row selection change on the loaded page: page ids end up selected
     * exactly when the event lists them, selections on other pages stay.
     */
    method OnSelectionChange(value: Option<seq<Artwork>>)
      modifies this`selectedIds
      ensures selectedIds == Reconcile(old(selectedIds), Ids(artworks), Ids(EventRecords(value)))
    {
      selectedIds := ReconciledSelection(selectedIds, artworks, value);
    }

    /**
     * The header box changed: every loaded id is added when the box reports
     * `true`, removed otherwise (a missing value counts as unchecked).
     */
    method OnSelectAllChange(checked: Option<bool>)
      modifies this`selectedIds
      ensures selectedIds == SelectAllOnPage(old(selectedIds), Ids(artworks), checked == Some(true))
    {
      var isChecked := checked == Some(true);
      selectedIds := ToggledAll(selectedIds, artworks, isChecked);
    }

    /** The bulk target input changed; a cleared input stores no target. */
    method SetNumSelect(value: Option<int>)
      modifies this`numSelect
      ensures numSelect == value
      ensures selectedIds == old(selectedIds)
    {
      numSelect := value;
    }

    /**
     * "Select first N": with no target or a target below 1 nothing happens and
     * nothing is fetched. Otherwise the walk's ids replace the selection, the
     * earlier selection being discarded, and the spinner ends hidden.
     */
    method HandleRecords(source: seq<Response>) returns (requests: nat)
      modifies this`selectedIds, this`loading
      ensures numSelect.None? || numSelect.value <= 0 ==>
                requests == 0 && selectedIds == old(selectedIds) && loading == old(loading)
      ensures numSelect.Some? && numSelect.value > 0 ==>
                selectedIds == BulkSelection(source, numSelect.value).selected
                && requests == BulkSelection(source, numSelect.value).requests
                && !loading
      ensures artworks == old(artworks) && first == old(first) && rows == old(rows)
    {
      if numSelect.None? || numSelect.value <= 0 {
        return 0;
      }
      loading := true;
      var collected, counted;
      collected, counted, requests := CollectFirstN(source, numSelect.value);
      selectedIds := collected;
      loading := false;
    }
  }

  /**
   * Navigating away from a page and back: whatever the two fetches return,
   * the selection is what it was, and once the page is back every loaded
   * record whose id was selected is shown checked again.
   */
  method RevisitPage(table: ArtworkTable, awayFirst: int, awayRows: int, away: PageResponse, back: PageResponse)
    modifies table
    ensures table.selectedIds == old(table.selectedIds)
    ensures table.first == old(table.first) && table.rows == old(table.rows)
    ensures back.PageLoaded? ==> table.artworks == back.data
    ensures forall a :: a in table.artworks && a.id in old(table.selectedIds) ==> a in table.Shown()
  {
    var homeFirst, homeRows := table.first, table.rows;
    table.OnPageChange(awayFirst, awayRows);
    var _, _ := table.BeginPageFetch();
    table.FinishPageFetch(away);
    table.OnPageChange(homeFirst, homeRows);
    var _, _ := table.BeginPageFetch();
    table.FinishPageFetch(back);
  }
}
