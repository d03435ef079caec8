/**
 * The selection store of the artwork table: a set of selected artwork ids that
 * outlives the page of records currently loaded, and the page-scoped events
 * that change it (a row selection change, the "select all on this page" box).
 */
module Selection {
  import opened Wrappers

  /** One row of the table as the display fetch returns it. */
  datatype Artwork = Artwork(
    id: int,
    title: Option<string>,
    placeOfOrigin: Option<string>,
    artistDisplay: Option<string>,
    inscriptions: Option<string>,
    dateStart: Option<int>,
    dateEnd: Option<int>)

  /** The ids of a list of records (`new Set(records.map(a => a.id))`). */
  function Ids(records: seq<Artwork>): (ids: set<int>)
    ensures forall i :: 0 <= i < |records| ==> records[i].id in ids
    ensures forall id :: id in ids ==> exists i :: 0 <= i < |records| && records[i].id == id
  {
    set a | a in records :: a.id
  }

  lemma IdsAppendOne(records: seq<Artwork>, i: nat)
    requires i < |records|
    ensures Ids(records[..i + 1]) == Ids(records[..i]) + {records[i].id}
  {
  }

  /** The records a selection event reports as checked (`e.value ?? []`). */
  function EventRecords(value: Option<seq<Artwork>>): seq<Artwork>
  {
    if value.Some? then value.value else []
  }

  /**
   * The selection after a selection-change event on a page: ids on the page
   * end up selected exactly when the event lists them; every other id keeps
   * its membership, except that an id the event lists is added wherever it is.
   */
  function Reconcile(prior: set<int>, pageIds: set<int>, eventIds: set<int>): (after: set<int>)
    ensures forall id :: id in pageIds ==> (id in after <==> id in eventIds)
    ensures forall id :: id !in pageIds ==> (id in after <==> id in prior || id in eventIds)
    ensures prior - pageIds <= after
  {
    (prior + eventIds) - (pageIds - eventIds)
  }

  /**
   * The selection after the header box is toggled: the page's ids are all
   * added (checked) or all removed (unchecked); other ids keep their membership.
   */
  function SelectAllOnPage(prior: set<int>, pageIds: set<int>, checked: bool): (after: set<int>)
    ensures checked ==> forall id :: id in pageIds ==> id in after
    ensures !checked ==> forall id :: id in pageIds ==> id !in after
    ensures forall id :: id !in pageIds ==> (id in after <==> id in prior)
  {
    if checked then prior + pageIds else prior - pageIds
  }

  /** Toggling the header box twice the same way is the same as toggling it once. */
  lemma SelectAllOnPageIdempotent(prior: set<int>, pageIds: set<int>, checked: bool)
    ensures SelectAllOnPage(SelectAllOnPage(prior, pageIds, checked), pageIds, checked)
         == SelectAllOnPage(prior, pageIds, checked)
  {
  }

  /** Checking then unchecking the header box clears the page and nothing else. */
  lemma SelectAllOnThenOff(prior: set<int>, pageIds: set<int>)
    ensures SelectAllOnPage(SelectAllOnPage(prior, pageIds, true), pageIds, false) == prior - pageIds
  {
  }

  /**
   * The header box is a selection event for the whole page: checked lists
   * every record of the page, unchecked lists none.
   */
  lemma SelectAllIsReconcile(prior: set<int>, pageIds: set<int>, checked: bool)
    ensures SelectAllOnPage(prior, pageIds, checked)
         == Reconcile(prior, pageIds, if checked then pageIds else {})
  {
  }

  /**
   * The records of the page whose ids are selected, in page order
   * (`artworks.filter(art => selectedIds.has(art.id))`).
   */
  function CurrentPageSelection(artworks: seq<Artwork>, selectedIds: set<int>): (shown: seq<Artwork>)
    ensures |shown| <= |artworks|
    ensures forall a :: a in shown <==> a in artworks && a.id in selectedIds
  {
    if artworks == [] then []
    else
      (if artworks[0].id in selectedIds then [artworks[0]] else [])
      + CurrentPageSelection(artworks[1..], selectedIds)
  }

  /** `sub` is `s` with some elements left out and the rest in their order. */
  ghost predicate IsSubsequence(sub: seq<Artwork>, s: seq<Artwork>)
    decreases |s|
  {
    if sub == [] then true
    else if s == [] then false
    else (sub[0] == s[0] && IsSubsequence(sub[1..], s[1..])) || IsSubsequence(sub, s[1..])
  }

  lemma {:induction false} CurrentPageSelectionIsSubsequence(artworks: seq<Artwork>, selectedIds: set<int>)
    ensures IsSubsequence(CurrentPageSelection(artworks, selectedIds), artworks)
    decreases |artworks|
  {
    if artworks != [] {
      var rest := CurrentPageSelection(artworks[1..], selectedIds);
      CurrentPageSelectionIsSubsequence(artworks[1..], selectedIds);
      if artworks[0].id in selectedIds {
        assert CurrentPageSelection(artworks, selectedIds) == [artworks[0]] + rest;
        assert ([artworks[0]] + rest)[1..] == rest;
      } else {
        assert CurrentPageSelection(artworks, selectedIds) == rest;
      }
    }
  }

  /** The projection of a page split in two is the two projections joined, in order. */
  lemma {:induction false} CurrentPageSelectionAppend(a: seq<Artwork>, b: seq<Artwork>, selectedIds: set<int>)
    ensures CurrentPageSelection(a + b, selectedIds)
         == CurrentPageSelection(a, selectedIds) + CurrentPageSelection(b, selectedIds)
    decreases |a|
  {
    if a != [] {
      assert (a + b)[1..] == a[1..] + b;
      CurrentPageSelectionAppend(a[1..], b, selectedIds);
    } else {
      assert a + b == b;
    }
  }

  /** Whether the header box shows checked: a non-empty page with every record selected. */
  function IsAllOnPageSelected(artworks: seq<Artwork>, selectedIds: set<int>): (checked: bool)
    ensures artworks == [] ==> !checked
    ensures checked <==> artworks != [] && Ids(artworks) <= selectedIds
  {
    |artworks| > 0 && forall i :: 0 <= i < |artworks| ==> artworks[i].id in selectedIds
  }

  lemma {:induction false} AllSelectedShowsWholePage(artworks: seq<Artwork>, selectedIds: set<int>)
    requires forall i :: 0 <= i < |artworks| ==> artworks[i].id in selectedIds
    ensures CurrentPageSelection(artworks, selectedIds) == artworks
    decreases |artworks|
  {
    if artworks != [] {
      AllSelectedShowsWholePage(artworks[1..], selectedIds);
    }
  }

  /**
   * The header box is checked exactly when the page is non-empty and the
   * highlighted rows are the whole page.
   */
  lemma {:induction false} AllOnPageSelectedIffShownIsPage(artworks: seq<Artwork>, selectedIds: set<int>)
    ensures IsAllOnPageSelected(artworks, selectedIds)
        <==> artworks != [] && CurrentPageSelection(artworks, selectedIds) == artworks
  {
    if IsAllOnPageSelected(artworks, selectedIds) {
      AllSelectedShowsWholePage(artworks, selectedIds);
    }
  }

  /** After checking the header box on a non-empty page, the box reads checked. */
  lemma CheckedPageIsAllSelected(prior: set<int>, artworks: seq<Artwork>)
    requires artworks != []
    ensures IsAllOnPageSelected(artworks, SelectAllOnPage(prior, Ids(artworks), true))
  {
  }

  lemma {:induction false} NoneSelectedShowsNothing(artworks: seq<Artwork>, selectedIds: set<int>)
    requires forall i :: 0 <= i < |artworks| ==> artworks[i].id !in selectedIds
    ensures CurrentPageSelection(artworks, selectedIds) == []
    decreases |artworks|
  {
    if artworks != [] {
      NoneSelectedShowsNothing(artworks[1..], selectedIds);
    }
  }

  /** After unchecking the header box, no row of the page is highlighted. */
  lemma UncheckedPageShowsNothing(prior: set<int>, artworks: seq<Artwork>)
    ensures CurrentPageSelection(artworks, SelectAllOnPage(prior, Ids(artworks), false)) == []
  {
    NoneSelectedShowsNothing(artworks, SelectAllOnPage(prior, Ids(artworks), false));
  }

  /**
   * The set-building of the selection-change handler: add every id the event
   * lists, then delete each page id that was selected before and is not listed.
   */
  method ReconciledSelection(selectedIds: set<int>, artworks: seq<Artwork>, value: Option<seq<Artwork>>)
    returns (newSelectedIds: set<int>)
    ensures newSelectedIds == Reconcile(selectedIds, Ids(artworks), Ids(EventRecords(value)))
  {
    var selectedArtworks := EventRecords(value);
    newSelectedIds := selectedIds;
    for i := 0 to |selectedArtworks|
      invariant newSelectedIds == selectedIds + Ids(selectedArtworks[..i])
    {
      IdsAppendOne(selectedArtworks, i);
      newSelectedIds := newSelectedIds + {selectedArtworks[i].id};
    }
    assert selectedArtworks[..|selectedArtworks|] == selectedArtworks;
    var currentPageIds := Ids(artworks);
    var selectedOnPageIds := Ids(selectedArtworks);
    var remaining := currentPageIds;
    while remaining != {}
      invariant remaining <= currentPageIds
      invariant newSelectedIds
             == (selectedIds + selectedOnPageIds)
                - ((currentPageIds - remaining) * selectedIds - selectedOnPageIds)
      decreases remaining
    {
      var id :| id in remaining;
      if id in selectedIds && id !in selectedOnPageIds {
        newSelectedIds := newSelectedIds - {id};
      }
      remaining := remaining - {id};
    }
  }

  /** The set-building of the header box handler: add or delete each page id in turn. */
  method ToggledAll(selectedIds: set<int>, artworks: seq<Artwork>, checked: bool)
    returns (newSelectedIds: set<int>)
    ensures newSelectedIds == SelectAllOnPage(selectedIds, Ids(artworks), checked)
  {
    newSelectedIds := selectedIds;
    for i := 0 to |artworks|
      invariant newSelectedIds == SelectAllOnPage(selectedIds, Ids(artworks[..i]), checked)
    {
      IdsAppendOne(artworks, i);
      if checked {
        newSelectedIds := newSelectedIds + {artworks[i].id};
      } else {
        newSelectedIds := newSelectedIds - {artworks[i].id};
      }
    }
    assert artworks[..|artworks|] == artworks;
  }
}
