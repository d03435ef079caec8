/**
 * The "select first N" walk: fetch id-only pages of the remote collection in
 * order, collect ids until N have been counted, the source has no next page,
 * or a fetch fails, and hand back what was collected.
 *
 * The remote endpoint is modelled as a finite list of answers: entry k is the
 * answer to the request for page k + 1, and a request for a page past the end
 * of the list fails.
 */
module BulkSelect {

  /**
   * The answer to one id-only page request: the ids in server order and
   * whether the pagination block carries a `next_url`, or a failed request.
   */
  datatype Response = Fetched(ids: seq<int>, hasNext: bool) | FetchFailed

  /** The answer the source gives to a request for page number `page`. */
  function Fetch(source: seq<Response>, page: int): Response
  {
    if 1 <= page <= |source| then source[page - 1] else FetchFailed
  }

  /** The outcome of a walk: ids collected, the counter, and the number of requests made. */
  datatype Walked = Walked(selected: set<int>, count: nat, requests: nat)

  /** The elements of a sequence. */
  function Elems(s: seq<int>): set<int>
  {
    set x | x in s
  }

  lemma ElemsAppend(a: seq<int>, b: seq<int>)
    ensures Elems(a + b) == Elems(a) + Elems(b)
  {
  }

  /** A sequence never has more distinct elements than entries. */
  lemma {:induction false} ElemsBound(s: seq<int>)
    ensures |Elems(s)| <= |s|
  {
    if s != [] {
      ElemsBound(s[1..]);
      assert s == [s[0]] + s[1..];
      ElemsAppend([s[0]], s[1..]);
      assert Elems([s[0]]) == {s[0]};
    }
  }

  /** No id occurs twice. */
  predicate Distinct(s: seq<int>)
  {
    forall i, j :: 0 <= i < j < |s| ==> s[i] != s[j]
  }

  lemma DistinctTail(s: seq<int>)
    requires Distinct(s) && s != []
    ensures Distinct(s[1..]) && s[0] !in s[1..]
  {
  }

  /** With no id repeated, the set of ids is as large as the sequence. */
  lemma {:induction false} ElemsOfDistinct(s: seq<int>)
    requires Distinct(s)
    ensures |Elems(s)| == |s|
  {
    if s != [] {
      DistinctTail(s);
      ElemsOfDistinct(s[1..]);
      assert Elems(s) == {s[0]} + Elems(s[1..]) by {
        assert s == [s[0]] + s[1..];
        ElemsAppend([s[0]], s[1..]);
      }
    }
  }

  lemma DistinctPrefix(s: seq<int>, k: nat)
    requires Distinct(s) && k <= |s|
    ensures Distinct(s[..k])
  {
  }

  /** How many of `len` ids fit while `want` more are wanted: min(len, max(want, 0)). */
  function Room(len: nat, want: int): (k: nat)
    ensures k <= len
    ensures want >= 0 ==> k <= want
    ensures want <= 0 ==> k == 0
    ensures want > 0 ==> k == len || k == want
  {
    if want <= 0 then 0 else if want < len then want else len
  }

  /**
   * The inner loop over one page: each id is added and counted while the
   * counter is below `n`; at the first id that finds it at `n` the loop stops.
   */
  function Absorb(ids: seq<int>, n: int, acc: set<int>, count: nat): (r: (set<int>, nat))
    ensures acc <= r.0
    ensures count <= r.1 <= count + |ids|
    ensures count <= n ==> r.1 <= n
    decreases |ids|
  {
    if ids == [] || count >= n then (acc, count)
    else Absorb(ids[1..], n, acc + {ids[0]}, count + 1)
  }

  /** One page contributes exactly its first min(|ids|, n - count) ids. */
  lemma {:induction false} AbsorbTakesPrefix(ids: seq<int>, n: int, acc: set<int>, count: nat)
    ensures Absorb(ids, n, acc, count)
         == (acc + Elems(ids[..Room(|ids|, n - count)]), count + Room(|ids|, n - count))
    decreases |ids|
  {
    var k := Room(|ids|, n - count);
    if ids == [] || count >= n {
      assert ids[..k] == [];
      assert k == 0;
      assert Elems(ids[..k]) == {};
      assert acc + Elems(ids[..k]) == acc;
    } else {
      AbsorbTakesPrefix(ids[1..], n, acc + {ids[0]}, count + 1);
      assert Room(|ids[1..]|, n - (count + 1)) == k - 1;
      assert ids[..k] == [ids[0]] + ids[1..][..k - 1];
      ElemsAppend([ids[0]], ids[1..][..k - 1]);
      assert Elems([ids[0]]) == {ids[0]};
      assert acc + {ids[0]} + Elems(ids[1..][..k - 1]) == acc + Elems(ids[..k]);
    }
  }

  /**
   * The outer loop from page `page` on, given what has been collected so far:
   * it runs while the counter is below `n`; a failed request ends it; a page
   * without `next_url` ends it after its ids are taken.
   */
  function Walk(source: seq<Response>, n: int, page: nat, acc: set<int>, count: nat, requests: nat): (r: Walked)
    requires page >= 1
    ensures acc <= r.selected && count <= r.count
    ensures count <= n ==> r.count <= n
    ensures count < n ==> r.requests > requests
    ensures count >= n ==> r.requests == requests
    decreases |source| + 1 - page
  {
    if count >= n then Walked(acc, count, requests)
    else match Fetch(source, page)
      case FetchFailed => Walked(acc, count, requests + 1)
      case Fetched(ids, hasNext) =>
        var (acc', count') := Absorb(ids, n, acc, count);
        if hasNext then Walk(source, n, page + 1, acc', count', requests + 1)
        else Walked(acc', count', requests + 1)
  }

  /** The whole walk for target `n`, starting at page 1 with nothing collected. */
  function BulkSelection(source: seq<Response>, n: int): (r: Walked)
    ensures n <= 0 ==> r == Walked({}, 0, 0)
    ensures n > 0 ==> r.requests >= 1 && r.count <= n
  {
    Walk(source, n, 1, {}, 0, 0)
  }

  /**
   * The ids a walk starting at page `page` can see, in source order: the pages
   * up to the first failed request (left out) or the first page without
   * `next_url` (kept).
   */
  function Reachable(source: seq<Response>, page: nat): seq<int>
    requires page >= 1
    decreases |source| + 1 - page
  {
    match Fetch(source, page)
    case FetchFailed => []
    case Fetched(ids, hasNext) => if hasNext then ids + Reachable(source, page + 1) else ids
  }

  /** Taking room for `want` from `a + b` takes room from `a` first, then the rest from `b`. */
  lemma PrefixOfAppend(a: seq<int>, b: seq<int>, want: int)
    ensures var k1 := Room(|a|, want);
            var k2 := Room(|b|, want - k1);
            Room(|a + b|, want) == k1 + k2
            && (a + b)[..k1 + k2] == a[..k1] + b[..k2]
  {
    var k1 := Room(|a|, want);
    var k2 := Room(|b|, want - k1);
    if k1 < |a| {
      assert k2 == 0;
    }
    assert (a + b)[..k1 + k2] == a[..k1] + b[..k2];
  }

  /** The ids taken from `a` and then from `b` are the ids of the prefix taken from `a + b`. */
  lemma ElemsOfPrefixOfAppend(acc: set<int>, a: seq<int>, b: seq<int>, want: int)
    ensures var k1 := Room(|a|, want);
            var k2 := Room(|b|, want - k1);
            k1 + k2 == Room(|a + b|, want)
            && acc + Elems(a[..k1]) + Elems(b[..k2]) == acc + Elems((a + b)[..Room(|a + b|, want)])
  {
    var k1 := Room(|a|, want);
    var k2 := Room(|b|, want - k1);
    PrefixOfAppend(a, b, want);
    ElemsAppend(a[..k1], b[..k2]);
  }

  /** On a page with `next_url`, the walk and the reachable ids both go on to the next page. */
  lemma WalkOnNext(source: seq<Response>, n: int, page: nat, acc: set<int>, count: nat, requests: nat)
    requires page >= 1 && count < n
    requires Fetch(source, page).Fetched? && Fetch(source, page).hasNext
    ensures var ids := Fetch(source, page).ids;
            var absorbed := Absorb(ids, n, acc, count);
            Walk(source, n, page, acc, count, requests)
              == Walk(source, n, page + 1, absorbed.0, absorbed.1, requests + 1)
            && Reachable(source, page) == ids + Reachable(source, page + 1)
  {
  }

  /** From any point, the walk ends up with the next min(|Reachable|, n - count) reachable ids. */
  lemma {:induction false} WalkTakesPrefix(source: seq<Response>, n: int, page: nat, acc: set<int>, count: nat, requests: nat)
    requires page >= 1
    ensures var r := Reachable(source, page);
            var k := Room(|r|, n - count);
            Walk(source, n, page, acc, count, requests).selected == acc + Elems(r[..k])
            && Walk(source, n, page, acc, count, requests).count == count + k
    decreases |source| + 1 - page, 1
  {
    if count >= n || Fetch(source, page).FetchFailed? {
      WalkTakesPrefixDone(source, n, page, acc, count, requests);
    } else if Fetch(source, page).hasNext {
      WalkTakesPrefixNext(source, n, page, acc, count, requests);
    } else {
      WalkTakesPrefixLast(source, n, page, acc, count, requests);
    }
  }

  /** A walk whose target is met, or whose next request fails, adds nothing. */
  lemma WalkTakesPrefixDone(source: seq<Response>, n: int, page: nat, acc: set<int>, count: nat, requests: nat)
    requires page >= 1
    requires count >= n || Fetch(source, page).FetchFailed?
    ensures var r := Reachable(source, page);
            var k := Room(|r|, n - count);
            Walk(source, n, page, acc, count, requests).selected == acc + Elems(r[..k])
            && Walk(source, n, page, acc, count, requests).count == count + k
  {
    var r := Reachable(source, page);
    assert Elems(r[..Room(|r|, n - count)]) == {};
  }

  /** On a page without `next_url`, the walk takes what it can of that page and stops. */
  lemma WalkTakesPrefixLast(source: seq<Response>, n: int, page: nat, acc: set<int>, count: nat, requests: nat)
    requires page >= 1 && count < n
    requires Fetch(source, page).Fetched? && !Fetch(source, page).hasNext
    ensures var r := Reachable(source, page);
            var k := Room(|r|, n - count);
            Walk(source, n, page, acc, count, requests).selected == acc + Elems(r[..k])
            && Walk(source, n, page, acc, count, requests).count == count + k
  {
    AbsorbTakesPrefix(Fetch(source, page).ids, n, acc, count);
  }

  /** On a page with `next_url`, the walk takes what it can of the page and goes on. */
  lemma {:induction false} WalkTakesPrefixNext(source: seq<Response>, n: int, page: nat, acc: set<int>, count: nat, requests: nat)
    requires page >= 1 && count < n
    requires Fetch(source, page).Fetched? && Fetch(source, page).hasNext
    ensures var r := Reachable(source, page);
            var k := Room(|r|, n - count);
            Walk(source, n, page, acc, count, requests).selected == acc + Elems(r[..k])
            && Walk(source, n, page, acc, count, requests).count == count + k
    decreases |source| + 1 - page, 0
  {
    var ids := Fetch(source, page).ids;
    var rest := Reachable(source, page + 1);
    var k1 := Room(|ids|, n - count);
    var k2 := Room(|rest|, n - (count + k1));
    var acc1 := acc + Elems(ids[..k1]);
    AbsorbTakesPrefix(ids, n, acc, count);
    WalkOnNext(source, n, page, acc, count, requests);
    var w := Walk(source, n, page + 1, acc1, count + k1, requests + 1);
    assert Walk(source, n, page, acc, count, requests) == w;
    WalkTakesPrefix(source, n, page + 1, acc1, count + k1, requests + 1);
    assert w.selected == acc1 + Elems(rest[..k2]) && w.count == count + k1 + k2;
    ElemsOfPrefixOfAppend(acc, ids, rest, n - count);
  }

  /**
   * The walk selects the first min(n, |Reachable|) reachable ids in source
   * order, and its counter says how many ids it took.
   */
  lemma BulkSelectionIsFirstN(source: seq<Response>, n: int)
    ensures var r := Reachable(source, 1);
            BulkSelection(source, n).selected == Elems(r[..Room(|r|, n)])
            && BulkSelection(source, n).count == Room(|r|, n)
  {
    WalkTakesPrefix(source, n, 1, {}, 0, 0);
  }

  /** The counter never passes the target, and no more ids are selected than counted. */
  lemma BulkSelectionBounded(source: seq<Response>, n: int)
    requires n > 0
    ensures BulkSelection(source, n).count <= n
    ensures |BulkSelection(source, n).selected| <= BulkSelection(source, n).count
  {
    BulkSelectionIsFirstN(source, n);
    var r := Reachable(source, 1);
    ElemsBound(r[..Room(|r|, n)]);
  }

  /**
   * The counter counts every id taken, repeats included: a page [7, 7, 8]
   * with target 2 stops after the second 7 with a single id selected.
   */
  lemma RepeatedIdsAreCounted()
    ensures BulkSelection([Fetched([7, 7, 8], false)], 2) == Walked({7}, 2, 1)
  {
  }

  /** The ids of every page, in page order (a failed page contributes none). */
  function AllIds(source: seq<Response>): seq<int>
  {
    if source == [] then []
    else (if source[0].Fetched? then source[0].ids else []) + AllIds(source[1..])
  }

  /**
   * A source with no failures whose pages all carry `next_url` except the
   * last.
   */
  ghost predicate Healthy(source: seq<Response>)
  {
    forall i :: 0 <= i < |source| ==>
      source[i].Fetched? && (source[i].hasNext <==> i < |source| - 1)
  }

  lemma {:induction false} HealthyReachesRest(source: seq<Response>, page: nat)
    requires Healthy(source)
    requires 1 <= page <= |source| + 1
    ensures Reachable(source, page) == AllIds(source[page - 1..])
    decreases |source| + 1 - page
  {
    if page <= |source| {
      assert source[page - 1..][1..] == source[page..];
      if page < |source| {
        HealthyReachesRest(source, page + 1);
      } else {
        assert source[page..] == [];
      }
    } else {
      assert source[page - 1..] == [];
    }
  }

  /**
   * On a healthy source whose ids are all different, the walk selects exactly
   * the first min(n, total) ids in source order, and that many of them.
   */
  lemma HealthySelectsFirstN(source: seq<Response>, n: int)
    requires Healthy(source) && Distinct(AllIds(source))
    ensures var all := AllIds(source);
            var k := Room(|all|, n);
            BulkSelection(source, n).selected == Elems(all[..k])
            && |BulkSelection(source, n).selected| == k
  {
    HealthyReachesRest(source, 1);
    assert source[0..] == source;
    BulkSelectionIsFirstN(source, n);
    var all := AllIds(source);
    var k := Room(|all|, n);
    DistinctPrefix(all, k);
    ElemsOfDistinct(all[..k]);
  }

  lemma {:induction false} ReachableStopsAtFailure(source: seq<Response>, page: nat, j: nat)
    requires 1 <= page <= j <= |source| + 1
    requires Fetch(source, j).FetchFailed?
    requires forall i :: page <= i < j ==> Fetch(source, i).Fetched? && Fetch(source, i).hasNext
    ensures Reachable(source, page) == AllIds(source[page - 1..j - 1])
    decreases j - page
  {
    if page == j {
      assert source[page - 1..j - 1] == [];
    } else {
      ReachableStopsAtFailure(source, page + 1, j);
      assert source[page - 1..j - 1] == [source[page - 1]] + source[page..j - 1];
      assert source[page - 1..j - 1][1..] == source[page..j - 1];
    }
  }

  /**
   * A walk interrupted by a failed request for page `j`, after pages
   * 1 .. j - 1 came back with `next_url`, still selects the first ids of
   * those earlier pages: no id is lost and none past the failure is invented.
   */
  lemma InterruptedWalkKeepsEarlierPages(source: seq<Response>, n: int, j: nat)
    requires 1 <= j <= |source| + 1
    requires Fetch(source, j).FetchFailed?
    requires forall i :: 1 <= i < j ==> Fetch(source, i).Fetched? && Fetch(source, i).hasNext
    ensures var before := AllIds(source[..j - 1]);
            BulkSelection(source, n).selected == Elems(before[..Room(|before|, n)])
  {
    ReachableStopsAtFailure(source, 1, j);
    assert source[0..j - 1] == source[..j - 1];
    BulkSelectionIsFirstN(source, n);
  }

  /** A page that fails or has no `next_url` is the last one requested. */
  lemma {:induction false} WalkStopsAt(source: seq<Response>, n: int, page: nat, acc: set<int>, count: nat, requests: nat, j: nat)
    requires 1 <= page <= j
    requires Fetch(source, j).FetchFailed? || !Fetch(source, j).hasNext
    ensures Walk(source, n, page, acc, count, requests).requests <= requests + (j - page) + 1
    decreases j - page
  {
    if count < n && page < j {
      match Fetch(source, page)
      case FetchFailed =>
      case Fetched(ids, hasNext) =>
        var (acc', count') := Absorb(ids, n, acc, count);
        if hasNext {
          WalkStopsAt(source, n, page + 1, acc', count', requests + 1, j);
        }
    }
  }

  /** The walk requests no page after the first one that fails or lacks `next_url`. */
  lemma BulkSelectionStopsAt(source: seq<Response>, n: int, j: nat)
    requires 1 <= j
    requires Fetch(source, j).FetchFailed? || !Fetch(source, j).hasNext
    ensures BulkSelection(source, n).requests <= j
  {
    WalkStopsAt(source, n, 1, {}, 0, 0, j);
  }

  lemma {:induction false} WalkStopsOnceFull(source: seq<Response>, n: int, page: nat, acc: set<int>, count: nat, requests: nat, j: nat)
    requires 1 <= page <= j <= |source|
    requires count + |AllIds(source[page - 1..j])| >= n
    ensures Walk(source, n, page, acc, count, requests).requests <= requests + (j - page) + 1
    decreases j - page
  {
    if count < n {
      match Fetch(source, page)
      case FetchFailed =>
      case Fetched(ids, hasNext) =>
        var (acc', count') := Absorb(ids, n, acc, count);
        AbsorbTakesPrefix(ids, n, acc, count);
        assert source[page - 1..j][1..] == source[page..j];
        if hasNext && page < j {
          WalkStopsOnceFull(source, n, page + 1, acc', count', requests + 1, j);
        } else if hasNext {
          assert source[page - 1..j] == [source[page - 1]];
          assert count' >= n;
        }
    }
  }

  /**
   * Once pages 1 .. j hold at least `n` ids, no page after `j` is requested:
   * the walk stops as soon as its target is met.
   */
  lemma BulkSelectionStopsOnceFull(source: seq<Response>, n: int, j: nat)
    requires 1 <= j <= |source|
    requires |AllIds(source[..j])| >= n
    ensures BulkSelection(source, n).requests <= j
  {
    assert source[0..j] == source[..j];
    WalkStopsOnceFull(source, n, 1, {}, 0, 0, j);
  }

  /**
   * The loops of the bulk handler: fetch page after page, add ids while the
   * counter is below `numSelect`, stop on a missing `next_url` or a failure.
   */
  method CollectFirstN(source: seq<Response>, numSelect: int)
    returns (newSelectedIds: set<int>, recordsFetched: nat, requests: nat)
    ensures Walked(newSelectedIds, recordsFetched, requests) == BulkSelection(source, numSelect)
  {
    newSelectedIds, recordsFetched, requests := {}, 0, 0;
    var currentPage := 1;
    while recordsFetched < numSelect
      invariant 1 <= currentPage <= |source| + 1
      invariant Walk(source, numSelect, currentPage, newSelectedIds, recordsFetched, requests)
             == BulkSelection(source, numSelect)
      decreases |source| + 1 - currentPage
    {
      var response := Fetch(source, currentPage);
      requests := requests + 1;
      if response.FetchFailed? {
        break;
      }
      var ids := response.ids;
      ghost var acc0, count0 := newSelectedIds, recordsFetched;
      var i := 0;
      while i < |ids|
        invariant 0 <= i <= |ids|
        invariant Absorb(ids[i..], numSelect, newSelectedIds, recordsFetched)
               == Absorb(ids, numSelect, acc0, count0)
      {
        if recordsFetched < numSelect {
          assert ids[i..][1..] == ids[i + 1..];
          newSelectedIds := newSelectedIds + {ids[i]};
          recordsFetched := recordsFetched + 1;
        } else {
          break;
        }
        i := i + 1;
      }
      if !response.hasNext {
        break;
      }
      currentPage := currentPage + 1;
    }
  }
}
