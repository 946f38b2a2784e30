/** The in-memory changelog of server.js: a list of entries served as a
    fixed grid of 120 cells (3 rows of 40), and a per-entry view counter
    raised by `POST /api/changelog/:index/view`. The store is a value here;
    a view request maps the store before to the store after and a reply. */
module Changelog {
  import opened Optional
  import opened JsNumber

  /** The number of cells the client grid shows. */
  const GridSize: nat := 120

  /** One changelog entry: an ISO date, the view count and three lists of
      change descriptions. */
  datatype Entry = Entry(date: string, views: nat, added: seq<string>, fixed: seq<string>, changed: seq<string>)

  /** The reply to a view request: 404, or success with the new count. */
  datatype ViewReply = NotFound | Viewed(views: nat)

  /** `GET /api/changelog`: cell `i` is entry `i`, or `null` past the end of
      the store; entries past the grid are not sent. */
  function Listing(store: seq<Entry>): (cells: seq<Option<Entry>>)
    ensures |cells| == GridSize
    ensures forall i :: 0 <= i < GridSize ==> (cells[i].Some? <==> i < |store|)
    ensures forall i :: 0 <= i < GridSize && i < |store| ==> cells[i] == Some(store[i])
  {
    seq(GridSize, i requires 0 <= i < GridSize => if i < |store| then Some(store[i]) else None)
  }

  /** The index a request path segment names: `parseInt(segment)`, which
      is NaN (None) when the segment has no leading digits. */
  function RequestedIndex(segment: string): Option<int> {
    ParseInt(segment, Auto)
  }

  /** `POST /api/changelog/:index/view`: a segment that parses to the index of
      an entry raises that entry's `views` by one and reports the new count;
      NaN, a negative number or an index past the end is 404 and leaves the
      store alone. */
  function View(store: seq<Entry>, segment: string): (result: (seq<Entry>, ViewReply))
    ensures |result.0| == |store|
    ensures result.1.NotFound? <==>
      !(RequestedIndex(segment).Some? && 0 <= RequestedIndex(segment).value < |store|)
    ensures result.1.NotFound? ==> result.0 == store
    ensures result.1.Viewed? ==>
      var i := RequestedIndex(segment).value;
      && result.0[i] == store[i].(views := store[i].views + 1)
      && result.1.views == store[i].views + 1
      && forall j :: 0 <= j < |store| && j != i ==> result.0[j] == store[j]
  {
    match RequestedIndex(segment)
    case None => (store, NotFound)
    case Some(i) =>
      if 0 <= i < |store| then
        var e := store[i];
        (store[i := e.(views := e.views + 1)], Viewed(e.views + 1))
      else (store, NotFound)
  }

  /** The number of view requests in `segments` that name entry `i`. */
  function Hits(segments: seq<string>, i: int): nat
    decreases |segments|
  {
    if |segments| == 0 then 0
    else Hits(segments[..|segments| - 1], i) + (if RequestedIndex(segments[|segments| - 1]) == Some(i) then 1 else 0)
  }

  /** The store after a run of view requests, in order. */
  function ViewAll(store: seq<Entry>, segments: seq<string>): seq<Entry>
    decreases |segments|
  {
    if |segments| == 0 then store
    else View(ViewAll(store, segments[..|segments| - 1]), segments[|segments| - 1]).0
  }

  // ---------------------------------------------------------------------

  /** Viewing an entry shows up in the next listing: the cell holds the
      entry with the reported count, and every other cell is as before. */
  lemma ViewThenList(store: seq<Entry>, segment: string)
    requires View(store, segment).1.Viewed?
    ensures var i := RequestedIndex(segment).value;
      i < GridSize ==> Listing(View(store, segment).0)[i].value.views == View(store, segment).1.views
    ensures forall j :: 0 <= j < GridSize && j != RequestedIndex(segment).value ==>
      Listing(View(store, segment).0)[j] == Listing(store)[j]
  {
  }

  /** A request for the decimal form of an index addresses that index. */
  lemma ViewByNumber(store: seq<Entry>, i: int)
    ensures View(store, IntToString(i, 10)).1 ==
      if 0 <= i < |store| then Viewed(store[i].views + 1) else NotFound
  {
    DecimalRoundTrip(i);
  }

  /** After any run of view requests each entry has gained exactly one view
      per request that named it, and everything else about it is unchanged. */
  lemma {:induction false} ViewsCountRequests(store: seq<Entry>, segments: seq<string>)
    ensures |ViewAll(store, segments)| == |store|
    ensures forall i :: 0 <= i < |store| ==>
      ViewAll(store, segments)[i] == store[i].(views := store[i].views + Hits(segments, i))
    decreases |segments|
  {
    if |segments| > 0 {
      var front := segments[..|segments| - 1];
      ViewsCountRequests(store, front);
    }
  }
}
