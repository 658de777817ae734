/** The TypeScript indexer's window fetch: pages read by cursor, entries deduplicated by id, reading
    stopped at a short page or at the first entry past the window. It behaves as one complete fetch. */
module IndexerPaging {
  import opened Basics
  import opened IndexerDb
  import opened IndexerSafety
  import opened Indexer
  import opened IndexerHealing
  import IndexerBounds

  datatype Entry = Entry(id: nat, raw: Raw)

  datatype PageReply = Entries(entries: seq<Entry>, oldest: int, cursor: nat) | PageRefused | PageFailed

  /** Replies by window, range and cursor; `pages` bounds the pages read for one window and `calls` the
      windows read before the process is stopped. */
  datatype Pager = Pager(page: (nat, int, int, Option<nat>) -> PageReply, limit: nat, pages: nat, calls: nat)

  datatype Scan = Scan(seen: set<nat>, events: seq<Event>, stopped: bool) | Undecoded

  function ScanPage(es: seq<Entry>, to: int, seen: set<nat>, events: seq<Event>): Scan {
    if es == [] then Scan(seen, events, false)
    else if LedgerOf(es[0].raw) > to then Scan(seen, events, true)
    else if es[0].id in seen then ScanPage(es[1..], to, seen, events)
    else
      match es[0].raw
      case Broken(_) => Undecoded
      case Known(e) => ScanPage(es[1..], to, seen + {es[0].id}, events + [e])
      case Other(_) => ScanPage(es[1..], to, seen + {es[0].id}, events)
  }

  function Pages(pg: Pager, k: nat, from: int, to: int, cursor: Option<nat>, left: nat, seen: set<nat>,
                 events: seq<Event>): Answer
    decreases left
  {
    if left == 0 then FetchFailed(Rpc)
    else
      match pg.page(k, from, to, cursor)
      case PageRefused => FetchFailed(Retention)
      case PageFailed => FetchFailed(Rpc)
      case Entries(es, oldest, next) =>
        match ScanPage(es, to, seen, events)
        case Undecoded => FetchFailed(Rpc)
        case Scan(seen', events', stopped) =>
          if stopped || |es| < pg.limit then Fetched(events', oldest)
          else Pages(pg, k, from, to, Some(next), left - 1, seen', events')
  }

  function PagedFetch(pg: Pager, k: nat, from: int, to: int): Answer {
    if k >= pg.calls then FetchFailed(Rpc) else Pages(pg, k, from, to, None, pg.pages, {}, [])
  }

  // ----- the code

  method ReadPage(es: seq<Entry>, to: int, seen: set<nat>, events: seq<Event>) returns (s: Scan)
    ensures s == ScanPage(es, to, seen, events)
  {
    var seen', out := seen, events;
    for i := 0 to |es|
      invariant ScanPage(es[i..], to, seen', out) == ScanPage(es, to, seen, events)
    {
      assert es[i..][0] == es[i] && es[i..][1..] == es[i + 1..];
      if LedgerOf(es[i].raw) > to {
        return Scan(seen', out, true);
      }
      if es[i].id in seen' {
        continue;
      }
      seen' := seen' + {es[i].id};
      match es[i].raw {
        case Broken(_) => return Undecoded;
        case Known(e) => out := out + [e];
        case Other(_) =>
      }
    }
    return Scan(seen', out, false);
  }

  method FetchWindow(pg: Pager, k: nat, from: int, to: int) returns (f: Answer)
    ensures f == PagedFetch(pg, k, from, to)
  {
    if k >= pg.calls {
      return FetchFailed(Rpc);
    }
    var seen: set<nat>, out: seq<Event>, cursor: Option<nat> := {}, [], None;
    for read := 0 to pg.pages
      invariant Pages(pg, k, from, to, cursor, pg.pages - read, seen, out) == PagedFetch(pg, k, from, to)
    {
      match pg.page(k, from, to, cursor) {
        case PageRefused => return FetchFailed(Retention);
        case PageFailed => return FetchFailed(Rpc);
        case Entries(es, oldest, next) =>
          var s := ReadPage(es, to, seen, out);
          if s.Undecoded? {
            return FetchFailed(Rpc);
          }
          if s.stopped || |es| < pg.limit {
            return Fetched(s.events, oldest);
          }
          seen, out, cursor := s.seen, s.events, Some(next);
      }
    }
    return FetchFailed(Rpc);
  }

  // ----- a listing read in pages

  function Ids(es: seq<Entry>): set<nat> {
    set e | e in es :: e.id
  }

  function KnownEvents(es: seq<Entry>): seq<Event> {
    if es == [] then []
    else
      KnownEvents(es[..|es| - 1]) +
      match es[|es| - 1].raw
      case Known(e) => [e]
      case Other(_) => []
      case Broken(_) => []
  }

  /** Entries in ledger order, each with its own id. */
  ghost predicate Listing(all: seq<Entry>) {
    && (forall i, j :: 0 <= i <= j < |all| ==> LedgerOf(all[i].raw) <= LedgerOf(all[j].raw))
    && (forall i, j :: 0 <= i < j < |all| ==> all[i].id != all[j].id)
  }

  ghost predicate PageOf(all: seq<Entry>, limit: nat, at: nat, r: PageReply) {
    r.Entries? ==>
      && r.cursor <= |all| && at <= r.cursor
      && |r.entries| <= r.cursor && r.cursor - |r.entries| <= at
      && r.entries == all[r.cursor - |r.entries|..r.cursor]
      && (|r.entries| < limit ==> r.cursor == |all|)
  }

  function Position(cursor: Option<nat>): nat {
    match cursor
    case None => 0
    case Some(p) => p
  }

  /** Replies are stretches of one listing: each starts no later than where the last one ended, and a
      short one ends the listing. Stretches may overlap. */
  ghost predicate ListedAs(pg: Pager, k: nat, from: int, to: int, all: seq<Entry>) {
    && Listing(all)
    && forall cursor :: Position(cursor) <= |all| ==>
          PageOf(all, pg.limit, Position(cursor), pg.page(k, from, to, cursor))
  }

  /** The first `n` entries are of the window and do decode. */
  ghost predicate Within(all: seq<Entry>, n: nat, to: int)
    requires n <= |all|
  {
    forall i :: 0 <= i < n ==> LedgerOf(all[i].raw) <= to && !all[i].raw.Broken?
  }

  /** The first `n` entries are exactly those of the window, and they do decode. */
  ghost predicate CutAt(all: seq<Entry>, n: nat, to: int) {
    n <= |all| && Within(all, n, to) && (n < |all| ==> LedgerOf(all[n].raw) > to)
  }

  lemma IdsGrow(all: seq<Entry>, p: nat)
    requires p < |all|
    ensures Ids(all[..p + 1]) == Ids(all[..p]) + {all[p].id}
    ensures KnownEvents(all[..p + 1]) == KnownEvents(all[..p]) +
              match all[p].raw { case Known(e) => [e] case Other(_) => [] case Broken(_) => [] }
  {
    assert all[..p + 1][..p] == all[..p];
    assert all[..p + 1] == all[..p] + [all[p]];
  }

  lemma IdSeen(all: seq<Entry>, p: nat, i: nat)
    requires Listing(all) && i < |all| && p <= |all|
    ensures all[i].id in Ids(all[..p]) <==> i < p
  {
    if i < p {
      assert all[..p][i] in all[..p];
    } else {
      forall e | e in all[..p] ensures e.id != all[i].id {
        var j :| 0 <= j < p && all[..p][j] == e;
      }
    }
  }

  /** Reading a stretch that starts inside what was read and ends at `b` extends what was read to `b`,
      or to the end of the window. */
  lemma {:induction false} ScanStretch(all: seq<Entry>, a: nat, p: nat, b: nat, to: int)
    requires Listing(all) && a <= p <= b <= |all| && Within(all, p, to)
    ensures var s := ScanPage(all[a..b], to, Ids(all[..p]), KnownEvents(all[..p]));
      && (s.Scan? && !s.stopped ==> s.seen == Ids(all[..b]) && s.events == KnownEvents(all[..b]) && Within(all, b, to))
      && (s.Scan? && s.stopped ==> exists n: nat :: CutAt(all, n, to) && s.events == KnownEvents(all[..n]))
    decreases b - a
  {
    hide Listing, Ids, KnownEvents;
    if a < b {
      assert all[a..b][0] == all[a] && all[a..b][1..] == all[a + 1..b];
      IdSeen(all, p, a);
      if LedgerOf(all[a].raw) > to {
        assert a == p;
        assert CutAt(all, p, to);
      } else if a < p {
        ScanStretch(all, a + 1, p, b, to);
      } else {
        IdsGrow(all, p);
        if !all[a].raw.Broken? {
          assert KnownEvents(all[..p]) + [] == KnownEvents(all[..p]);
          ScanStretch(all, a + 1, p + 1, b, to);
        }
      }
    }
  }

  /** Paging is complete and exact: over a listing, a fetch that succeeds returns the known events of the
      window, each once and in order, however the stretches overlap. */
  lemma {:induction false} PagesComplete(pg: Pager, k: nat, from: int, to: int, all: seq<Entry>, cursor: Option<nat>,
                                         left: nat)
    requires ListedAs(pg, k, from, to, all) && Position(cursor) <= |all| && Within(all, Position(cursor), to)
    ensures var p := Position(cursor);
      var f := Pages(pg, k, from, to, cursor, left, Ids(all[..p]), KnownEvents(all[..p]));
      f.Fetched? ==> exists n: nat :: CutAt(all, n, to) && f.events == KnownEvents(all[..n])
    decreases left
  {
    hide Listing, Within, Ids, KnownEvents, CutAt, ScanPage;
    if left > 0 {
      var p := Position(cursor);
      var r := pg.page(k, from, to, cursor);
      assert PageOf(all, pg.limit, p, r);
      if r.Entries? {
        var a, b := r.cursor - |r.entries|, r.cursor;
        ScanStretch(all, a, p, b, to);
        var s := ScanPage(all[a..b], to, Ids(all[..p]), KnownEvents(all[..p]));
        if s.Scan? && !s.stopped {
          if |r.entries| < pg.limit {
            WholeListing(all, to);
          } else {
            PagesComplete(pg, k, from, to, all, Some(b), left - 1);
          }
        }
      }
    }
  }

  lemma WholeListing(all: seq<Entry>, to: int)
    requires Within(all, |all|, to)
    ensures CutAt(all, |all|, to)
  {
  }

  /** Pages make progress: none is refused or fails, and one that does not end the listing reaches further. */
  ghost predicate Progresses(pg: Pager, k: nat, from: int, to: int, all: seq<Entry>) {
    forall cursor :: Position(cursor) <= |all| ==>
      var r := pg.page(k, from, to, cursor);
      r.Entries? && (|r.entries| >= pg.limit ==> Position(cursor) < r.cursor)
  }

  /** No entry of the window fails to decode. */
  ghost predicate Decodes(es: seq<Entry>, to: int) {
    forall e :: e in es && LedgerOf(e.raw) <= to ==> !e.raw.Broken?
  }

  lemma {:induction false} ScanDecodes(es: seq<Entry>, to: int, seen: set<nat>, events: seq<Event>)
    requires Decodes(es, to)
    ensures ScanPage(es, to, seen, events).Scan?
  {
    if es != [] && LedgerOf(es[0].raw) <= to {
      assert es[0] in es && forall e :: e in es[1..] ==> e in es;
      if es[0].id in seen {
        ScanDecodes(es[1..], to, seen, events);
      } else if es[0].raw.Known? {
        ScanDecodes(es[1..], to, seen + {es[0].id}, events + [es[0].raw.event]);
      } else if es[0].raw.Other? {
        ScanDecodes(es[1..], to, seen + {es[0].id}, events);
      }
    }
  }

  lemma OnePage(pg: Pager, k: nat, from: int, to: int, cursor: Option<nat>, left: nat, seen: set<nat>,
                events: seq<Event>)
    requires left > 0 && pg.page(k, from, to, cursor).Entries?
    requires ScanPage(pg.page(k, from, to, cursor).entries, to, seen, events).Scan?
    ensures var r := pg.page(k, from, to, cursor);
      var s := ScanPage(r.entries, to, seen, events);
      Pages(pg, k, from, to, cursor, left, seen, events)
      == if s.stopped || |r.entries| < pg.limit then Fetched(s.events, r.oldest)
         else Pages(pg, k, from, to, Some(r.cursor), left - 1, s.seen, s.events)
  {
    hide ScanPage;
  }

  lemma PageReaches(pg: Pager, k: nat, from: int, to: int, all: seq<Entry>, cursor: Option<nat>)
    requires ListedAs(pg, k, from, to, all) && Progresses(pg, k, from, to, all) && Position(cursor) <= |all|
    ensures var r := pg.page(k, from, to, cursor);
      && r.Entries? && r.cursor <= |all| && (|r.entries| >= pg.limit ==> Position(cursor) < r.cursor)
      && (Decodes(all, to) ==> Decodes(r.entries, to))
  {
    hide Listing;
    var r := pg.page(k, from, to, cursor);
    assert PageOf(all, pg.limit, Position(cursor), r);
    assert forall e :: e in r.entries ==> e in all;
  }

  /** Paging ends well: over a listing that decodes, pages that make progress complete the fetch, in at most
      one page per entry still to be read and one more. */
  lemma {:induction false} PagesSucceed(pg: Pager, k: nat, from: int, to: int, all: seq<Entry>, cursor: Option<nat>,
                                        left: nat,
                                        seen: set<nat>, events: seq<Event>)
    requires ListedAs(pg, k, from, to, all) && Progresses(pg, k, from, to, all) && Position(cursor) <= |all|
    requires Decodes(all, to) && |all| - Position(cursor) + 1 <= left
    ensures Pages(pg, k, from, to, cursor, left, seen, events).Fetched?
    decreases left
  {
    hide ListedAs, Progresses, Decodes, ScanPage, Pages;
    PageReaches(pg, k, from, to, all, cursor);
    var r := pg.page(k, from, to, cursor);
    ScanDecodes(r.entries, to, seen, events);
    var s := ScanPage(r.entries, to, seen, events);
    OnePage(pg, k, from, to, cursor, left, seen, events);
    if !s.stopped && |r.entries| >= pg.limit {
      PagesSucceed(pg, k, from, to, all, Some(r.cursor), left - 1, s.seen, s.events);
    }
  }

  lemma {:induction false} KnownEventsContents(es: seq<Entry>)
    ensures forall e :: e in KnownEvents(es) <==> exists x :: x in es && x.raw == Known(e)
  {
    if es != [] {
      var front, last := es[..|es| - 1], es[|es| - 1];
      assert es == front + [last];
      KnownEventsContents(front);
      forall e ensures e in KnownEvents(es) <==> exists x :: x in es && x.raw == Known(e) {
        if e in KnownEvents(front) {
          var x :| x in front && x.raw == Known(e);
          assert x in es;
        }
        if exists x :: x in es && x.raw == Known(e) {
          var x :| x in es && x.raw == Known(e);
          assert x in front || x == last;
        }
      }
    }
  }

  // ----- the paged source as a source of whole windows

  ghost predicate BoundedReply(limit: nat, r: PageReply) {
    r.Entries? ==> |r.entries| <= limit
  }

  /** Pages hold at most what was asked for. */
  ghost predicate Bounded(pg: Pager) {
    forall k, from, to, cursor :: BoundedReply(pg.limit, pg.page(k, from, to, cursor))
  }

  ghost predicate TruthfulReply(c: Chain, from: int, r: PageReply) {
    r.Entries? ==> forall x, e | x in r.entries && x.raw == Known(e) :: Genuine(c, e) && from <= e.ledger
  }

  /** Pages hold only true events at or after the start ledger. */
  ghost predicate TruthfulPager(c: Chain, pg: Pager) {
    forall k, from, to, cursor :: TruthfulReply(c, from, pg.page(k, from, to, cursor))
  }

  ghost predicate Shows(c: Chain, from: int, to: int, all: seq<Entry>) {
    forall e :: Genuine(c, e) && from <= e.ledger <= to ==> exists x :: x in all && x.raw == Known(e)
  }

  /** The reply ends the reading of a window. */
  ghost predicate Ends(limit: nat, to: int, r: PageReply) {
    r.Entries? && (|r.entries| < limit || exists x :: x in r.entries && LedgerOf(x.raw) > to)
  }

  ghost predicate EndShows(c: Chain, limit: nat, from: int, to: int, all: seq<Entry>, r: PageReply) {
    Ends(limit, to, r) ==> Shows(c, Max(from, r.oldest), to, all)
  }

  ghost predicate ShowsAll(c: Chain, pg: Pager, k: nat, from: int, to: int) {
    exists all :: ListedAs(pg, k, from, to, all)
      && forall cursor :: EndShows(c, pg.limit, from, to, all, pg.page(k, from, to, cursor))
  }

  /** Every window is a listing with every true event of the window in it that the source still had when it gave
      the last page: it may leave out what lies before the oldest ledger that page names. */
  ghost predicate FaithfulPager(c: Chain, pg: Pager) {
    TruthfulPager(c, pg) && forall k, from, to :: ShowsAll(c, pg, k, from, to)
  }

  function Window(a: Answer): Response {
    match a
    case Fetched(events, oldest) => Page(seq(|events|, i requires 0 <= i < |events| => Known(events[i])), oldest)
    case FetchFailed(e) => if e == Retention then RetentionRefused else RpcFailed
  }

  function AsSource(pg: Pager): Source {
    Source((k: nat, from: int, to: int) => Window(PagedFetch(pg, k, from, to)), pg.calls)
  }

  /** Large enough that no window reaches it. */
  function Unlimited(cfg: Config, pg: Pager): Config {
    cfg.(pageLimit := pg.pages * pg.limit + 1)
  }

  lemma {:induction false} ScanTruthful(c: Chain, from: int, es: seq<Entry>, to: int, seen: set<nat>,
                                        events: seq<Event>)
    requires forall x, e | x in es && x.raw == Known(e) :: Genuine(c, e) && from <= e.ledger
    requires forall e :: e in events ==> Genuine(c, e) && from <= e.ledger <= to
    ensures var s := ScanPage(es, to, seen, events);
      s.Scan? ==> forall e :: e in s.events ==> Genuine(c, e) && from <= e.ledger <= to
  {
    if es != [] {
      var head, tail := es[0], es[1..];
      assert head in es && forall x :: x in tail ==> x in es;
      if LedgerOf(head.raw) <= to {
        if head.id in seen {
          ScanTruthful(c, from, tail, to, seen, events);
        } else if head.raw.Known? {
          assert head.raw == Known(head.raw.event);
          ScanTruthful(c, from, tail, to, seen + {head.id}, events + [head.raw.event]);
        } else if head.raw.Other? {
          ScanTruthful(c, from, tail, to, seen + {head.id}, events);
        }
      }
    }
  }

  lemma {:induction false} PagesTruthful(c: Chain, pg: Pager, k: nat, from: int, to: int, cursor: Option<nat>,
                                         left: nat,
                                         seen: set<nat>, events: seq<Event>)
    requires TruthfulPager(c, pg)
    requires forall e :: e in events ==> Genuine(c, e) && from <= e.ledger <= to
    ensures var f := Pages(pg, k, from, to, cursor, left, seen, events);
      f.Fetched? ==> forall e :: e in f.events ==> Genuine(c, e) && from <= e.ledger <= to
    decreases left
  {
    hide Genuine, ScanPage;
    if left > 0 {
      var r := pg.page(k, from, to, cursor);
      assert TruthfulReply(c, from, r);
      if r.Entries? {
        ScanTruthful(c, from, r.entries, to, seen, events);
        var s := ScanPage(r.entries, to, seen, events);
        if s.Scan? && !s.stopped && |r.entries| >= pg.limit {
          PagesTruthful(c, pg, k, from, to, Some(r.cursor), left - 1, s.seen, s.events);
        }
      }
    }
  }

  lemma {:induction false} ScanWithin(es: seq<Entry>, to: int, seen: set<nat>, events: seq<Event>)
    requires forall e :: e in events ==> e.ledger <= to
    ensures var s := ScanPage(es, to, seen, events);
      s.Scan? ==> |s.events| <= |events| + |es| && forall e :: e in s.events ==> e.ledger <= to
  {
    if es != [] && LedgerOf(es[0].raw) <= to {
      var head, tail := es[0], es[1..];
      if head.id in seen {
        ScanWithin(tail, to, seen, events);
      } else if head.raw.Known? {
        ScanWithin(tail, to, seen + {head.id}, events + [head.raw.event]);
      } else if head.raw.Other? {
        ScanWithin(tail, to, seen + {head.id}, events);
      }
    }
  }

  /** No fetched event is past the window, and there are no more of them than the pages can hold. */
  lemma {:induction false} PagesWithin(pg: Pager, k: nat, from: int, to: int, cursor: Option<nat>, left: nat,
                                       seen: set<nat>, events: seq<Event>)
    requires Bounded(pg) && left <= pg.pages && |events| <= (pg.pages - left) * pg.limit
    requires forall e :: e in events ==> e.ledger <= to
    ensures var f := Pages(pg, k, from, to, cursor, left, seen, events);
      f.Fetched? ==> |f.events| <= pg.pages * pg.limit && forall e :: e in f.events ==> e.ledger <= to
    decreases left
  {
    hide ScanPage;
    if left > 0 {
      var r := pg.page(k, from, to, cursor);
      assert BoundedReply(pg.limit, r);
      if r.Entries? {
        ScanWithin(r.entries, to, seen, events);
        var s := ScanPage(r.entries, to, seen, events);
        if s.Scan? {
          OnePageMore(pg.pages, left, pg.limit);
          if !s.stopped && |r.entries| >= pg.limit {
            PagesWithin(pg, k, from, to, Some(r.cursor), left - 1, s.seen, s.events);
          }
        }
      }
    }
  }

  lemma OnePageMore(pages: nat, left: nat, limit: nat)
    requires 0 < left <= pages
    ensures (pages - left) * limit + limit == (pages - (left - 1)) * limit <= pages * limit
  {
    assert (pages - (left - 1)) * limit + (left - 1) * limit == pages * limit;
  }

  /** A paged fetch is one unlimited fetch of the adapted source. */
  lemma PagedFetchIsFetch(cfg: Config, pg: Pager, k: nat, from: int, to: int)
    requires Bounded(pg)
    ensures var f, g := PagedFetch(pg, k, from, to), FetchRange(Unlimited(cfg, pg), AsSource(pg), k, from, to);
      (f.Fetched? ==> g == f) && (f.FetchFailed? ==> g == FetchFailed(if f.error == Retention then Retention else Rpc))
  {
    hide Pages;
    var f := PagedFetch(pg, k, from, to);
    if f.Fetched? {
      PagesWithin(pg, k, from, to, None, pg.pages, {}, []);
      DecodeKnown(f.events, to);
    }
  }

  lemma {:induction false} DecodeKnown(events: seq<Event>, to: int)
    requires forall e :: e in events ==> e.ledger <= to
    ensures Decode(seq(|events|, i requires 0 <= i < |events| => Known(events[i])), to) == Some(events)
  {
    if events != [] {
      var front := events[..|events| - 1];
      var raws := seq(|events|, i requires 0 <= i < |events| => Known(events[i]));
      assert raws[..|raws| - 1] == seq(|front|, i requires 0 <= i < |front| => Known(front[i]));
      DecodeKnown(front, to);
      assert events == front + [events[|events| - 1]];
    }
  }

  lemma PagerTruthful(c: Chain, pg: Pager)
    requires TruthfulPager(c, pg)
    ensures Truthful(c, AsSource(pg))
  {
    hide Pages;
    forall k, from, to ensures TruthfulPage(c, from, AsSource(pg).respond(k, from, to)) {
      PagesTruthful(c, pg, k, from, to, None, pg.pages, {}, []);
    }
  }

  /** The window is a listing that decodes, in pages that make progress, and few enough of them. */
  ghost predicate Completes(pg: Pager, k: nat, from: int, to: int, all: seq<Entry>) {
    && ListedAs(pg, k, from, to, all) && Progresses(pg, k, from, to, all)
    && Decodes(all, to) && |all| + 1 <= pg.pages
  }

  ghost predicate ServesWindow(pg: Pager, k: nat, from: int, to: int) {
    exists all :: Completes(pg, k, from, to, all)
  }

  ghost predicate RetainedReply(floor: int, r: PageReply) {
    r.Entries? ==> r.oldest <= floor
  }

  /** Until the process is stopped every window from `floor` on can be read to its end, and nothing from
      `floor` on is out of retention. */
  ghost predicate Serves(pg: Pager, floor: int) {
    && (forall k: nat, from: int, to: int :: k < pg.calls && floor <= from ==> ServesWindow(pg, k, from, to))
    && (forall k, from, to, cursor :: RetainedReply(floor, pg.page(k, from, to, cursor)))
  }

  lemma {:induction false} ScanStops(es: seq<Entry>, to: int, seen: set<nat>, events: seq<Event>)
    ensures var s := ScanPage(es, to, seen, events);
      s.Scan? && s.stopped ==> exists x :: x in es && LedgerOf(x.raw) > to
  {
    if es != [] && LedgerOf(es[0].raw) <= to {
      assert es == [es[0]] + es[1..];
      if es[0].id in seen {
        ScanStops(es[1..], to, seen, events);
      } else if es[0].raw.Known? {
        ScanStops(es[1..], to, seen + {es[0].id}, events + [es[0].raw.event]);
      } else if es[0].raw.Other? {
        ScanStops(es[1..], to, seen + {es[0].id}, events);
      }
    }
  }

  /** The oldest ledger of a fetch is the one its last page names. */
  lemma {:induction false} PagesOldest(pg: Pager, k: nat, from: int, to: int, cursor: Option<nat>, left: nat,
                                       seen: set<nat>, events: seq<Event>)
    ensures var f := Pages(pg, k, from, to, cursor, left, seen, events);
      f.Fetched? ==>
        exists last :: Ends(pg.limit, to, pg.page(k, from, to, last)) && pg.page(k, from, to, last).oldest == f.oldest
    decreases left
  {
    hide ScanPage, Ends;
    if left > 0 {
      var r := pg.page(k, from, to, cursor);
      if r.Entries? {
        var s := ScanPage(r.entries, to, seen, events);
        if s.Scan? {
          ScanStops(r.entries, to, seen, events);
          if s.stopped || |r.entries| < pg.limit {
            EndsHere(pg.limit, to, r);
          } else {
            PagesOldest(pg, k, from, to, Some(r.cursor), left - 1, s.seen, s.events);
          }
        }
      }
    }
  }

  lemma EndsHere(limit: nat, to: int, r: PageReply)
    requires r.Entries? && (|r.entries| < limit || exists x :: x in r.entries && LedgerOf(x.raw) > to)
    ensures Ends(limit, to, r)
  {
  }

  /** Such a pager makes an available source. */
  lemma PagerAvailable(cfg: Config, pg: Pager, floor: int)
    requires Bounded(pg) && Serves(pg, floor)
    ensures IndexerBounds.Available(Unlimited(cfg, pg), AsSource(pg), floor)
  {
    hide Pages, Bounded, FetchRange;
    forall k: nat, from: int, to: int | k < pg.calls && floor <= from
      ensures IndexerBounds.GoodAnswer(floor, FetchRange(Unlimited(cfg, pg), AsSource(pg), k, from, to))
    {
      assert ServesWindow(pg, k, from, to);
      var all :| Completes(pg, k, from, to, all);
      PagesSucceed(pg, k, from, to, all, None, pg.pages, {}, []);
      PagesOldest(pg, k, from, to, None, pg.pages, {}, []);
      var last :| Ends(pg.limit, to, pg.page(k, from, to, last))
        && pg.page(k, from, to, last).oldest == PagedFetch(pg, k, from, to).oldest;
      assert RetainedReply(floor, pg.page(k, from, to, last));
      PagedFetchIsFetch(cfg, pg, k, from, to);
    }
  }

  /** Over such listings the adapted source is faithful, whatever its limit. */
  lemma PagerFaithful(c: Chain, pg: Pager, limit: nat)
    requires FaithfulPager(c, pg)
    ensures Faithful(limit, c, AsSource(pg))
  {
    PagerTruthful(c, pg);
    hide Pages, Truthful, TruthfulPager;
    forall k, from, to ensures FullPage(limit, c, from, to, AsSource(pg).respond(k, from, to)) {
      var f := PagedFetch(pg, k, from, to);
      if f.Fetched? {
        WindowIsFull(c, pg, k, from, to);
        var r := AsSource(pg).respond(k, from, to);
        forall e | Genuine(c, e) && Max(from, r.oldest) <= e.ledger <= to ensures Known(e) in r.raws {
          var i :| 0 <= i < |f.events| && f.events[i] == e;
          assert r.raws[i] == Known(e);
        }
      }
    }
  }

  lemma WindowIsFull(c: Chain, pg: Pager, k: nat, from: int, to: int)
    requires FaithfulPager(c, pg) && PagedFetch(pg, k, from, to).Fetched?
    ensures var f := PagedFetch(pg, k, from, to);
      forall e :: Genuine(c, e) && Max(from, f.oldest) <= e.ledger <= to ==> e in f.events
  {
    hide Pages, TruthfulPager, Genuine;
    var f := PagedFetch(pg, k, from, to);
    assert ShowsAll(c, pg, k, from, to);
    var all: seq<Entry> :| ListedAs(pg, k, from, to, all)
      && forall cursor :: EndShows(c, pg.limit, from, to, all, pg.page(k, from, to, cursor));
    PagesOldest(pg, k, from, to, None, pg.pages, {}, []);
    var last :| Ends(pg.limit, to, pg.page(k, from, to, last)) && pg.page(k, from, to, last).oldest == f.oldest;
    assert EndShows(c, pg.limit, from, to, all, pg.page(k, from, to, last));
    assert Ids(all[..0]) == {} && KnownEvents(all[..0]) == [];
    PagesComplete(pg, k, from, to, all, None, pg.pages);
    var n: nat :| CutAt(all, n, to) && f.events == KnownEvents(all[..n]);
    CutHolds(c, from, f.oldest, to, all, n);
  }

  lemma CutHolds(c: Chain, from: int, oldest: int, to: int, all: seq<Entry>, n: nat)
    requires Listing(all) && CutAt(all, n, to) && Shows(c, Max(from, oldest), to, all)
    ensures forall e :: Genuine(c, e) && Max(from, oldest) <= e.ledger <= to ==> e in KnownEvents(all[..n])
  {
    hide Genuine, KnownEvents;
    KnownEventsContents(all[..n]);
    forall e | Genuine(c, e) && Max(from, oldest) <= e.ledger <= to ensures e in KnownEvents(all[..n]) {
      var x :| x in all && x.raw == Known(e);
      var i :| 0 <= i < |all| && all[i] == x;
      assert LedgerOf(all[i].raw) <= to;
      assert i < n;
      assert all[..n][i] == x;
    }
  }
}
