/** What ticks achieve over an unreliable event source: no rescan skips a missing leaf, the loop is
    bounded, and the first tick over a faithful source that sees a new commitment repairs everything
    earlier ticks lost. */
module IndexerHealing {
  import opened Basics
  import opened IndexerDb
  import opened IndexerSafety
  import opened Indexer

  ghost predicate TruthfulPage(c: Chain, from: int, r: Response) {
    r.Page? ==> forall e :: Known(e) in r.raws ==> Genuine(c, e) && from <= e.ledger
  }

  /** Pages contain only true events at or after the start ledger: any part of them, in any order,
      with repetitions, different on every call. */
  ghost predicate Truthful(c: Chain, src: Source) {
    forall k, from, to :: TruthfulPage(c, from, src.respond(k, from, to))
  }

  ghost predicate FullPage(limit: nat, c: Chain, from: int, to: int, r: Response) {
    r.Page? && |r.raws| < limit ==>
      forall e :: Genuine(c, e) && Max(from, r.oldest) <= e.ledger <= to ==> Known(e) in r.raws
  }

  /** A page that stays below the limit contains every true event of the window asked for that the source still
      has: it may leave out what lies before its oldest ledger, and cut a page off at the limit. */
  ghost predicate Faithful(limit: nat, c: Chain, src: Source) {
    Truthful(c, src) && forall k, from, to :: FullPage(limit, c, from, to, src.respond(k, from, to))
  }

  ghost predicate WholeAnswer(c: Chain, a: Answer) {
    a.Fetched? ==> Whole(ByLedger(), c, a.events)
  }

  /** Whole ledgers are shown or hidden, possibly differently on every call. */
  ghost predicate LedgerWise(cfg: Config, c: Chain, src: Source) {
    forall k, from, to :: WholeAnswer(c, FetchRange(cfg, src, k, from, to))
  }

  /** A page decodes unless something of the window in it does not, and then gives the known events of the
      window. */
  lemma {:induction false} DecodeContents(raws: seq<Raw>, to: int)
    ensures Decode(raws, to).None? <==> exists r :: r in raws && r.Broken? && LedgerOf(r) <= to
    ensures Decode(raws, to).Some? ==>
              forall e :: e in Decode(raws, to).value <==> Known(e) in raws && e.ledger <= to
  {
    if raws != [] {
      var front, r := raws[..|raws| - 1], raws[|raws| - 1];
      assert raws == front + [r];
      DecodeContents(front, to);
      if r.Broken? && LedgerOf(r) <= to {
        assert r in raws;
      } else if Decode(front, to).None? {
        var x :| x in front && x.Broken? && LedgerOf(x) <= to;
        assert x in raws;
      } else {
        forall x | x in raws && x.Broken? ensures LedgerOf(x) > to {
          assert x in front || x == r;
        }
      }
    }
  }

  lemma FetchTruthful(c: Chain, cfg: Config, src: Source, k: nat, from: int, to: int)
    requires Truthful(c, src) && FetchRange(cfg, src, k, from, to).Fetched?
    ensures forall e :: e in FetchRange(cfg, src, k, from, to).events ==> Genuine(c, e) && from <= e.ledger <= to
    ensures AllGenuine(c, FetchRange(cfg, src, k, from, to).events)
  {
    DecodeContents(src.respond(k, from, to).raws, to);
    assert TruthfulPage(c, from, src.respond(k, from, to));
  }

  /** What was fetched below the limit and not before the oldest ledger is all there is. */
  lemma FetchFaithful(c: Chain, cfg: Config, src: Source, k: nat, from: int, to: int)
    requires Faithful(cfg.pageLimit, c, src) && FetchRange(cfg, src, k, from, to).Fetched?
    requires var oldest := FetchRange(cfg, src, k, from, to).oldest; oldest <= 0 || oldest <= from
    ensures forall e :: Genuine(c, e) && from <= e.ledger <= to ==> e in FetchRange(cfg, src, k, from, to).events
  {
    DecodeContents(src.respond(k, from, to).raws, to);
    assert FullPage(cfg.pageLimit, c, from, to, src.respond(k, from, to));
  }

  // ----- what every tick keeps

  /** Once a leaf is stored, the stored deploy ledger is not after leaf 0. */
  ghost predicate AnchorOk(c: Chain, db: Tables) {
    db.commitments != map[] && |c.leaves| > 0 ==> db.deploy.Some? && db.deploy.value <= c.leaves[0].ledger
  }

  ghost predicate DbOk(c: Chain, db: Tables) {
    Mirrors(c, db) && AnchorOk(c, db)
  }

  function LeafEvent(c: Chain, i: nat): Event
    requires i < |c.leaves|
  {
    Commitment(i, c.leaves[i].value, c.leaves[i].enc, c.leaves[i].ledger, c.leaves[i].txHash)
  }

  lemma EmptyIffNextZero(db: Tables)
    ensures db.commitments == map[] <==> NextLeaf(db.commitments) == 0
  {
    if NextLeaf(db.commitments) > 0 {
      assert NextLeaf(db.commitments) - 1 in db.commitments;
    } else {
      assert forall i :: i !in db.commitments;
    }
  }

  /** One fetched window of such a pass. */
  lemma WindowKeeps(c: Chain, cfg: Config, src: Source, k: nat, db: Tables, from: int, to: int)
    requires Truthful(c, src) && DbOk(c, db) && FetchRange(cfg, src, k, from, to).Fetched?
    requires db.deploy.Some? && (db.commitments == map[] ==> db.deploy.value <= from)
    ensures var (db', r) := BatchStep(db, FetchRange(cfg, src, k, from, to).events, to);
      && DbOk(c, db') && db'.deploy == db.deploy
      && NextLeaf(db.commitments) <= NextLeaf(db'.commitments)
      && (r.Gap? ==> NextLeaf(db'.commitments) <= r.expected < |c.leaves|)
      && (r.Gap? && r.expected > 0 ==> db.deploy.value <= c.leaves[0].ledger)
      && (db'.commitments == map[] ==> db.commitments == map[])
  {
    var f := FetchRange(cfg, src, k, from, to);
    FetchTruthful(c, cfg, src, k, from, to);
    BatchGenuine(c, db, f.events, to);
    var (db', r) := BatchStep(db, f.events, to);
    LeafZeroAfterAnchor(c, db, f.events, from, if r.Gap? then r.expected else NextLeaf(db'.commitments));
    EmptyIffNextZero(db);
    EmptyIffNextZero(db');
  }

  /** A pass over a truthful source, started no earlier than the anchor if the table is empty. */
  lemma {:induction false} PassKeeps(c: Chain, cfg: Config, src: Source, k: nat, db: Tables, from: int, safe: int)
    requires cfg.scanWindow > 0 && Truthful(c, src) && DbOk(c, db)
    requires db.deploy.Some? && (db.commitments == map[] ==> db.deploy.value <= from)
    ensures var p := IngestRange(cfg, src, k, db, from, safe);
      && DbOk(c, p.db) && p.db.deploy == db.deploy
      && NextLeaf(db.commitments) <= NextLeaf(p.db.commitments)
      && (p.result.GapAt? ==> NextLeaf(p.db.commitments) <= p.result.expected < |c.leaves|)
      && (p.result.GapAt? && p.result.expected > 0 ==> db.deploy.value <= c.leaves[0].ledger)
    decreases safe - from + 1
  {
    hide BatchStep, Mirrors;
    if from <= safe {
      var to := WindowEnd(cfg, from, safe);
      var f := FetchRange(cfg, src, k, from, to);
      if f.Fetched? && !(f.oldest > 0 && from < f.oldest) {
        WindowKeeps(c, cfg, src, k, db, from, to);
        var (db', r) := BatchStep(db, f.events, to);
        if r.Applied? {
          PassKeeps(c, cfg, src, k + 1, db', to + 1, safe);
        }
      }
    }
  }

  /** If leaf 0 is stored, or was in a batch fetched from `from` on, the anchor is not after it. */
  lemma LeafZeroAfterAnchor(c: Chain, db: Tables, events: seq<Event>, from: int, reached: nat)
    requires DbOk(c, db) && db.deploy.Some? && (db.commitments == map[] ==> db.deploy.value <= from)
    requires forall e :: e in events ==> Genuine(c, e) && from <= e.ledger
    requires forall i: nat :: NextLeaf(db.commitments) <= i < reached ==> BatchHasIndex(events, i)
    requires reached <= |c.leaves|
    ensures reached > 0 ==> db.deploy.value <= c.leaves[0].ledger
  {
    EmptyIffNextZero(db);
    if reached > 0 && db.commitments == map[] {
      assert BatchHasIndex(events, 0);
      var e :| e in events && e.Commitment? && e.index == 0;
      assert Genuine(c, e);
    }
  }

  /** No skipped rescan: wherever a pass stopped with a gap, whether the leaf before the gap was stored or
      rolled back with its batch, the next pass starts no later than the ledger of the first leaf
      missing from the table. */
  lemma NoSkippedRescan(c: Chain, cfg: Config, src: Source, k: nat, db: Tables, from: int, safe: int)
    requires cfg.scanWindow > 0 && Truthful(c, src) && ValidChain(c) && DbOk(c, db)
    requires db.deploy.Some? && (db.commitments == map[] ==> db.deploy.value <= from)
    requires IngestRange(cfg, src, k, db, from, safe).result.GapAt?
    ensures var p := IngestRange(cfg, src, k, db, from, safe);
      var missing := NextLeaf(p.db.commitments);
      && missing < |c.leaves|
      && (p.result.expected > 0 ==>
            RewindTarget(p.db.(gap := true), db.deploy.value, p.result.expected) <= c.leaves[missing].ledger)
      && (p.result.expected == 0 ==>
            var w := WalkBack(cfg, src, p.k, WalkStart(cfg, safe), safe);
            missing == 0 && (w.Found? ==> w.ledger == c.leaves[0].ledger))
  {
    PassKeeps(c, cfg, src, k, db, from, safe);
    var p := IngestRange(cfg, src, k, db, from, safe);
    if p.result.expected == 0 {
      WalkBackTruthful(c, cfg, src, p.k, WalkStart(cfg, safe), safe);
    }
  }

  lemma {:induction false} LeafZeroGenuine(c: Chain, events: seq<Event>)
    requires AllGenuine(c, events)
    ensures var l := LeafZeroLedger(events);
      && (l.Some? ==> |c.leaves| > 0 && l.value == c.leaves[0].ledger)
      && (l.Some? <==> BatchHasIndex(events, 0))
      && (l.Some? ==> LeafEvent(c, 0) in events)
  {
    if events != [] {
      assert events == [events[0]] + events[1..];
      LeafZeroGenuine(c, events[1..]);
      if events[0].Commitment? && events[0].index == 0 {
        assert Genuine(c, events[0]);
      } else if BatchHasIndex(events, 0) {
        var e :| e in events && e.Commitment? && e.index == 0;
        assert e in events[1..];
      }
    }
  }

  lemma {:induction false} WalkBackTruthful(c: Chain, cfg: Config, src: Source, k: nat, from: int, last: int)
    requires cfg.scanWindow > 0 && Truthful(c, src)
    ensures var w := WalkBack(cfg, src, k, from, last);
      w.Found? ==> |c.leaves| > 0 && w.ledger == c.leaves[0].ledger && from <= w.ledger <= last
    decreases last - from + 1
  {
    if from <= last {
      var to := WindowEnd(cfg, from, last);
      var f := FetchRange(cfg, src, k, from, to);
      if f.Fetched? {
        FetchTruthful(c, cfg, src, k, from, to);
        LeafZeroGenuine(c, f.events);
        WalkBackTruthful(c, cfg, src, k + 1, to + 1, last);
      }
    }
  }

  lemma DbOkOtherFlag(c: Chain, db: Tables, gap: bool)
    requires DbOk(c, db)
    ensures DbOk(c, db.(gap := gap))
  {
  }

  /** State of the loop at the start of a pass. */
  ghost predicate LoopOk(c: Chain, db: Tables, deploy: int, from: int) {
    DbOk(c, db) && db.deploy == Some(deploy) && (db.commitments == map[] ==> deploy <= from)
  }

  /** After a gap the loop is ready for its next pass, whether it re-anchors or rewinds. */
  lemma AfterGap(c: Chain, cfg: Config, src: Source, k: nat, db: Tables, deploy: int, from: int, safe: int)
    requires cfg.scanWindow > 0 && Truthful(c, src) && LoopOk(c, db, deploy, from)
    requires IngestRange(cfg, src, k, db, from, safe).result.GapAt?
    ensures var p := IngestRange(cfg, src, k, db, from, safe);
      && DbOk(c, p.db) && NextLeaf(db.commitments) <= NextLeaf(p.db.commitments)
      && (p.result.expected == 0 ==>
            var w := WalkBack(cfg, src, p.k, WalkStart(cfg, safe), safe);
            w.Found? ==> LoopOk(c, p.db.(deploy := Some(w.ledger)), w.ledger, w.ledger))
      && (p.result.expected > 0 ==>
            var db' := p.db.(gap := true);
            LoopOk(c, db', deploy, RewindTarget(db', deploy, p.result.expected)))
  {
    PassKeeps(c, cfg, src, k, db, from, safe);
    EmptyIffNextZero(IngestRange(cfg, src, k, db, from, safe).db);
  }

  /** The loop keeps the database right, and rewinds at most maxRescan times, over any truthful source. */
  lemma {:induction false} RescanKeeps(c: Chain, cfg: Config, src: Source, k: nat, db: Tables, deploy: int, from: int,
                                       safe: int,
                                       reanchors: nat, rewinds: nat)
    requires cfg.scanWindow > 0 && rewinds <= cfg.maxRescan && Truthful(c, src) && LoopOk(c, db, deploy, from)
    ensures var o := Rescan(cfg, src, k, db, deploy, from, safe, reanchors, rewinds);
      DbOk(c, o.db) && NextLeaf(db.commitments) <= NextLeaf(o.db.commitments) && o.rewinds <= cfg.maxRescan
    decreases src.calls - k
  {
    hide IngestRange, Mirrors, Truthful;
    var p := IngestRange(cfg, src, k, db, from, safe);
    if !p.result.GapAt? {
      PassKeeps(c, cfg, src, k, db, from, safe);
      DbOkOtherFlag(c, p.db, false);
    } else {
      AfterGap(c, cfg, src, k, db, deploy, from, safe);
      if p.result.expected == 0 {
        var w := WalkBack(cfg, src, p.k, WalkStart(cfg, safe), safe);
        if w.Found? {
          RescanKeeps(c, cfg, src, w.k, p.db.(deploy := Some(w.ledger)), w.ledger, w.ledger, safe, reanchors + 1,
                      rewinds);
        }
      } else if rewinds + 1 <= cfg.maxRescan {
        var db' := p.db.(gap := true);
        RescanKeeps(c, cfg, src, p.k, db', deploy, RewindTarget(db', deploy, p.result.expected), safe, reanchors,
                    rewinds + 1);
      }
    }
  }

  /** However the anchor was come by, the loop is ready for its first pass. */
  lemma AnchorIsOk(c: Chain, cfg: Config, src: Source, k: nat, db: Tables, l: Ledgers)
    requires cfg.scanWindow > 0 && DbOk(c, db)
    ensures var a := FindAnchor(cfg, src, k, db, l);
      a.Anchored? ==>
        && a.db.commitments == db.commitments && a.db.nullifiers == db.nullifiers && a.db.cursor == db.cursor
        && LoopOk(c, a.db, a.deploy, StartOf(a.db, a.deploy))
  {
    hide WalkBack;
    EmptyIffNextZero(db);
  }

  lemma TickKeeps(c: Chain, cfg: Config, src: Source, k: nat, db: Tables, l: Ledgers)
    requires cfg.scanWindow > 0 && Truthful(c, src) && DbOk(c, db)
    ensures var o := Tick(cfg, src, k, db, l);
      DbOk(c, o.db) && NextLeaf(db.commitments) <= NextLeaf(o.db.commitments) && o.rewinds <= cfg.maxRescan
  {
    hide Rescan, IngestRange, WalkBack, Truthful, Genuine;
    EmptyIffNextZero(db);
    var a := FindAnchor(cfg, src, k, db, l);
    if a.Anchored? && l.latest.Some? {
      assert DbOk(c, a.db);
      var safe, from := l.latest.value - cfg.confirmations, StartOf(a.db, a.deploy);
      if from <= safe {
        RescanKeeps(c, cfg, src, a.k, a.db, a.deploy, from, safe, 0, 0);
      }
    }
  }

  // ----- whole-ledger delivery keeps the tables closed under ledgers

  /** Closedness depends on the two event tables only. */
  lemma ClosedSameTables(c: Chain, db: Tables, db': Tables)
    requires Closed(ByLedger(), c, db)
    requires db'.commitments == db.commitments && db'.nullifiers == db.nullifiers
    ensures Closed(ByLedger(), c, db')
  {
    forall i, e | i in db'.commitments && Genuine(c, e)
        && UnitOf(ByLedger(), e) == ByLedger()(db'.commitments[i].ledger, db'.commitments[i].txHash)
      ensures Stored(db', e)
    {
      assert Stored(db, e);
    }
  }

  lemma WindowKeepsClosed(c: Chain, cfg: Config, src: Source, k: nat, db: Tables, from: int, to: int)
    requires Truthful(c, src) && LedgerWise(cfg, c, src) && FetchRange(cfg, src, k, from, to).Fetched?
    requires Mirrors(c, db) && Closed(ByLedger(), c, db)
    ensures var db' := BatchStep(db, FetchRange(cfg, src, k, from, to).events, to).0;
      Mirrors(c, db') && Closed(ByLedger(), c, db')
  {
    var f := FetchRange(cfg, src, k, from, to);
    assert WholeAnswer(c, f);
    FetchTruthful(c, cfg, src, k, from, to);
    BatchGenuine(c, db, f.events, to);
    BatchKeepsClosed(ByLedger(), c, db, f.events, to);
  }

  lemma {:induction false} PassKeepsClosed(c: Chain, cfg: Config, src: Source, k: nat, db: Tables, from: int, safe: int)
    requires cfg.scanWindow > 0 && Truthful(c, src) && LedgerWise(cfg, c, src)
    requires Mirrors(c, db) && Closed(ByLedger(), c, db)
    ensures Closed(ByLedger(), c, IngestRange(cfg, src, k, db, from, safe).db)
    decreases safe - from + 1
  {
    hide BatchStep, Mirrors, Closed, LedgerWise, Truthful;
    if from <= safe {
      var to := WindowEnd(cfg, from, safe);
      var f := FetchRange(cfg, src, k, from, to);
      if f.Fetched? && !(f.oldest > 0 && from < f.oldest) {
        WindowKeepsClosed(c, cfg, src, k, db, from, to);
        PassKeepsClosed(c, cfg, src, k + 1, BatchStep(db, f.events, to).0, to + 1, safe);
      }
    }
  }

  lemma {:induction false} RescanKeepsClosed(c: Chain, cfg: Config, src: Source, k: nat, db: Tables, deploy: int,
                                             from: int, safe: int,
                                             reanchors: nat, rewinds: nat)
    requires cfg.scanWindow > 0 && rewinds <= cfg.maxRescan && Truthful(c, src) && LoopOk(c, db, deploy, from)
    requires LedgerWise(cfg, c, src) && Closed(ByLedger(), c, db)
    ensures Closed(ByLedger(), c, Rescan(cfg, src, k, db, deploy, from, safe, reanchors, rewinds).db)
    decreases src.calls - k
  {
    hide IngestRange, Mirrors, Closed, LedgerWise, Truthful;
    PassKeepsClosed(c, cfg, src, k, db, from, safe);
    var p := IngestRange(cfg, src, k, db, from, safe);
    if p.result.GapAt? {
      AfterGap(c, cfg, src, k, db, deploy, from, safe);
      if p.result.expected == 0 {
        var w := WalkBack(cfg, src, p.k, WalkStart(cfg, safe), safe);
        if w.Found? {
          var db' := p.db.(deploy := Some(w.ledger));
          ClosedSameTables(c, p.db, db');
          RescanKeepsClosed(c, cfg, src, w.k, db', w.ledger, w.ledger, safe, reanchors + 1, rewinds);
        }
      } else if rewinds + 1 <= cfg.maxRescan {
        var db' := p.db.(gap := true);
        ClosedSameTables(c, p.db, db');
        RescanKeepsClosed(c, cfg, src, p.k, db', deploy, RewindTarget(db', deploy, p.result.expected), safe,
                          reanchors, rewinds + 1);
      }
    } else {
      ClosedSameTables(c, p.db, p.db.(gap := false));
    }
  }

  lemma TickKeepsClosed(c: Chain, cfg: Config, src: Source, k: nat, db: Tables, l: Ledgers)
    requires cfg.scanWindow > 0 && Truthful(c, src) && LedgerWise(cfg, c, src) && DbOk(c, db)
             && Closed(ByLedger(), c, db)
    ensures Closed(ByLedger(), c, Tick(cfg, src, k, db, l).db)
  {
    EmptyIffNextZero(db);
    var a := FindAnchor(cfg, src, k, db, l);
    if a.Anchored? && l.latest.Some? {
      ClosedSameTables(c, db, a.db);
      var safe, from := l.latest.value - cfg.confirmations, StartOf(a.db, a.deploy);
      if from <= safe {
        RescanKeepsClosed(c, cfg, src, a.k, a.db, a.deploy, from, safe, 0, 0);
      }
    }
  }

  // ----- healing

  /** What is to be healed: all events, or the leaves alone. */
  datatype Scope = Everything | LeavesOnly

  predicate InScope(sc: Scope, e: Event) {
    sc.LeavesOnly? ==> e.Commitment?
  }

  /** What a source may do so that this can be healed later: hide whole ledgers, or any events. */
  ghost predicate Shown(sc: Scope, cfg: Config, c: Chain, src: Source) {
    Truthful(c, src) && (sc.Everything? ==> LedgerWise(cfg, c, src))
  }

  ghost predicate ClosedFor(sc: Scope, c: Chain, db: Tables) {
    sc.Everything? ==> Closed(ByLedger(), c, db)
  }

  lemma ClosedForSameTables(sc: Scope, c: Chain, db: Tables, db': Tables)
    requires ClosedFor(sc, c, db)
    requires db'.commitments == db.commitments && db'.nullifiers == db.nullifiers
    ensures ClosedFor(sc, c, db')
  {
    if sc.Everything? {
      ClosedSameTables(c, db, db');
    }
  }

  /** Every true event in scope before ledger `bound` is stored. */
  ghost predicate StoredBefore(sc: Scope, c: Chain, db: Tables, bound: int) {
    forall e :: Genuine(c, e) && InScope(sc, e) && e.ledger < bound ==> Stored(db, e)
  }

  /** Once a leaf is stored, so is everything in scope up to the cursor. */
  ghost predicate UpToCursor(sc: Scope, c: Chain, db: Tables) {
    db.commitments != map[] ==> StoredBefore(sc, c, db, db.cursor + 1)
  }

  ghost predicate LeafWithin(c: Chain, from: int, to: int) {
    exists i :: 0 <= i < |c.leaves| && from <= c.leaves[i].ledger <= to
  }

  /** A faithful window with nothing missing before it: no gap, and nothing missing before its end. */
  lemma CleanWindow(sc: Scope, c: Chain, db: Tables, events: seq<Event>, from: int, to: int)
    requires ValidChain(c) && Mirrors(c, db) && StoredBefore(sc, c, db, from)
    requires forall e :: e in events <==> Genuine(c, e) && from <= e.ledger <= to
    ensures var (db', r) := BatchStep(db, events, to);
      && Mirrors(c, db') && !r.Gap? && (r.Applied? ==> StoredBefore(sc, c, db', to + 1))
      && (r.Applied? ==> db'.cursor == to) && (!r.Applied? ==> db' == db)
  {
    BatchGenuine(c, db, events, to);
    var n := NextLeaf(db.commitments);
    forall i: nat, e | n <= i && e in events && e.Commitment? && i < e.index ensures BatchHasIndex(events, i) {
      // leaf i is not stored, so it is not before the window; leaf e.index is in the window and not before leaf i
      assert Genuine(c, e);
      var missing := LeafEvent(c, i);
      assert Genuine(c, missing) && !Stored(db, missing);
      assert missing in events;
    }
  }

  lemma StoredBeforeWeaken(sc: Scope, c: Chain, db: Tables, bound: int, earlier: int)
    requires StoredBefore(sc, c, db, bound) && earlier <= bound
    ensures StoredBefore(sc, c, db, earlier)
  {
  }

  /** Over a faithful source a pass that starts with nothing missing before it never sees a gap, and if
      it ends it has stored everything. */
  lemma {:induction false} CleanPass(sc: Scope, c: Chain, cfg: Config, src: Source, k: nat, db: Tables, from: int,
                                     safe: int)
    requires cfg.scanWindow > 0 && Faithful(cfg.pageLimit, c, src) && ValidChain(c) && Mirrors(c, db)
    requires StoredBefore(sc, c, db, from)
    ensures var p := IngestRange(cfg, src, k, db, from, safe);
      && !p.result.GapAt? && (p.result.Done? ==> StoredBefore(sc, c, p.db, safe + 1))
      && (p.result.Done? && from <= safe ==> p.db.cursor == safe)
      && (UpToCursor(sc, c, db) ==> UpToCursor(sc, c, p.db))
    decreases safe - from + 1
  {
    hide BatchStep, Mirrors, StoredBefore;
    if from <= safe {
      var to := WindowEnd(cfg, from, safe);
      var f := FetchRange(cfg, src, k, from, to);
      if f.Fetched? && !(f.oldest > 0 && from < f.oldest) {
        FetchTruthful(c, cfg, src, k, from, to);
        FetchFaithful(c, cfg, src, k, from, to);
        CleanWindow(sc, c, db, f.events, from, to);
        var (db', r) := BatchStep(db, f.events, to);
        if r.Applied? {
          CleanPass(sc, c, cfg, src, k + 1, db', to + 1, safe);
        }
      }
    } else {
      StoredBeforeWeaken(sc, c, db, from, safe + 1);
    }
  }

  lemma NullStoredWithLeaf(c: Chain, db: Tables, v: nat, i: nat)
    requires Mirrors(c, db) && Closed(ByLedger(), c, db)
    requires v in c.nulls && i < |c.leaves| && SameTx(c.leaves[i], c.nulls[v])
    ensures i < NextLeaf(db.commitments) ==> v in db.nullifiers
  {
    if i < NextLeaf(db.commitments) {
      var e := Nullifier(v, c.nulls[v].ledger, c.nulls[v].txHash);
      assert i in db.commitments && db.commitments[i] == c.leaves[i];
      assert Genuine(c, e);
      assert Stored(db, e);
    }
  }

  /** When something before the pass is missing, the first missing leaf is. */
  lemma FirstMissingBefore(sc: Scope, c: Chain, db: Tables, from: int)
    requires ValidChain(c) && Mirrors(c, db) && ClosedFor(sc, c, db) && !StoredBefore(sc, c, db, from)
    ensures var n := NextLeaf(db.commitments);
      n < |c.leaves| && c.leaves[n].ledger < from
  {
    var n := NextLeaf(db.commitments);
    var e :| Genuine(c, e) && InScope(sc, e) && e.ledger < from && !Stored(db, e);
    if e.Nullifier? {
      var i := WithLeaf(c, e.value);
      NullStoredWithLeaf(c, db, e.value, i);
      assert c.leaves[n].ledger <= c.leaves[i].ledger;
    } else {
      assert c.leaves[n].ledger <= c.leaves[e.index].ledger;
    }
  }

  /** A faithful window of a pass that starts after a missing leaf: it is either empty, or a gap. */
  lemma LateWindow(c: Chain, db: Tables, events: seq<Event>, from: int, to: int)
    requires ValidChain(c) && Mirrors(c, db) && NextLeaf(db.commitments) < |c.leaves|
    requires c.leaves[NextLeaf(db.commitments)].ledger < from
    requires forall e :: e in events <==> Genuine(c, e) && from <= e.ledger <= to
    ensures events == [] <==> !LeafWithin(c, from, to)
    ensures var (db', r) := BatchStep(db, events, to);
      && db'.commitments == db.commitments && db'.nullifiers == db.nullifiers && db'.deploy == db.deploy
      && (events == [] ==> r.Applied?)
      && (events != [] ==> r == Gap(NextLeaf(db.commitments)))
  {
    var n := NextLeaf(db.commitments);
    if events != [] {
      var e := events[0];
      assert Genuine(c, e);
      var i: int := if e.Commitment? then e.index else WithLeaf(c, e.value);
      assert from <= c.leaves[i].ledger <= to;
      var j := LeafEvent(c, i);
      assert Genuine(c, j) && j in events;
      assert n < i;
      BatchGenuine(c, db, events, to);
      var (db', r) := BatchStep(db, events, to);
      LateBatchGap(c, db, events, from, to, j);
    }
    if LeafWithin(c, from, to) {
      var i :| 0 <= i < |c.leaves| && from <= c.leaves[i].ledger <= to;
      assert LeafEvent(c, i) in events;
    }
  }

  /** A leaf of the transaction that published a nullifier. */
  ghost function WithLeaf(c: Chain, v: nat): (i: int)
    requires ValidChain(c) && v in c.nulls
    ensures 0 <= i < |c.leaves| && SameTx(c.leaves[i], c.nulls[v])
  {
    var i :| 0 <= i < |c.leaves| && SameTx(c.leaves[i], c.nulls[v]);
    i
  }

  lemma LateBatchGap(c: Chain, db: Tables, events: seq<Event>, from: int, to: int, j: Event)
    requires ValidChain(c) && Mirrors(c, db) && NextLeaf(db.commitments) < |c.leaves|
    requires c.leaves[NextLeaf(db.commitments)].ledger < from
    requires forall e :: e in events ==> Genuine(c, e) && from <= e.ledger <= to
    requires j in events && j.Commitment?
    ensures BatchStep(db, events, to).1 == Gap(NextLeaf(db.commitments))
  {
    var n := NextLeaf(db.commitments);
    var cs := BatchCommits(events);
    CommitsContents(events);
    assert j in cs;
    forall e | e in cs ensures n < e.index {
      assert Genuine(c, e);
    }
    assert cs[0] in cs;
  }

  /** A faithful pass that starts after a missing leaf: it changes no table row, and either fails, or
      reports that leaf when the range holds any leaf, or ends without having noticed. */
  lemma {:induction false} LatePass(c: Chain, cfg: Config, src: Source, k: nat, db: Tables, from: int, safe: int)
    requires cfg.scanWindow > 0 && Faithful(cfg.pageLimit, c, src) && ValidChain(c) && Mirrors(c, db)
    requires NextLeaf(db.commitments) < |c.leaves| && c.leaves[NextLeaf(db.commitments)].ledger < from
    ensures var p := IngestRange(cfg, src, k, db, from, safe);
      && p.db.commitments == db.commitments && p.db.nullifiers == db.nullifiers && p.db.deploy == db.deploy
      && (p.result.GapAt? ==> p.result.expected == NextLeaf(db.commitments) && LeafWithin(c, from, safe))
      && (p.result.Done? ==> !LeafWithin(c, from, safe))
    decreases safe - from + 1
  {
    hide BatchStep, LeafWithin;
    if from <= safe {
      var to := WindowEnd(cfg, from, safe);
      LeafWithinSplit(c, from, to, safe);
      var f := FetchRange(cfg, src, k, from, to);
      if f.Fetched? && !(f.oldest > 0 && from < f.oldest) {
        FetchTruthful(c, cfg, src, k, from, to);
        FetchFaithful(c, cfg, src, k, from, to);
        LateWindow(c, db, f.events, from, to);
        if f.events == [] {
          LatePass(c, cfg, src, k + 1, BatchStep(db, f.events, to).0, to + 1, safe);
        }
      }
    } else {
      LeafWithinEmpty(c, from, safe);
    }
  }

  lemma LeafWithinSplit(c: Chain, from: int, to: int, safe: int)
    requires from <= to <= safe
    ensures LeafWithin(c, from, safe) <==> LeafWithin(c, from, to) || LeafWithin(c, to + 1, safe)
  {
  }

  lemma LeafWithinEmpty(c: Chain, from: int, safe: int)
    requires safe < from
    ensures !LeafWithin(c, from, safe)
  {
  }

  lemma NothingBeforeLeafZero(sc: Scope, c: Chain, db: Tables)
    requires ValidChain(c) && |c.leaves| > 0
    ensures StoredBefore(sc, c, db, c.leaves[0].ledger)
  {
    forall e | Genuine(c, e) ensures c.leaves[0].ledger <= e.ledger {
      var i: int := if e.Commitment? then e.index else WithLeaf(c, e.value);
      assert c.leaves[i].ledger == e.ledger;
    }
  }

  /** Everything before the ledger of the last stored leaf is stored. */
  lemma StoredBeforeLast(sc: Scope, c: Chain, db: Tables, n: nat)
    requires ValidChain(c) && Mirrors(c, db) && ClosedFor(sc, c, db)
    requires n == NextLeaf(db.commitments) > 0
    ensures StoredBefore(sc, c, db, c.leaves[n - 1].ledger)
  {
    forall e | Genuine(c, e) && InScope(sc, e) && e.ledger < c.leaves[n - 1].ledger ensures Stored(db, e) {
      var i: int := if e.Commitment? then e.index else WithLeaf(c, e.value);
      assert c.leaves[i].ledger == e.ledger;
      if e.Nullifier? {
        NullStoredWithLeaf(c, db, e.value, i);
      }
    }
  }

  /** After the gap of a late pass, the place the loop goes back to has nothing missing before it. */
  lemma ReturnIsEarlyEnough(sc: Scope, c: Chain, db: Tables, deploy: int)
    requires ValidChain(c) && DbOk(c, db) && db.deploy == Some(deploy) && ClosedFor(sc, c, db)
    requires NextLeaf(db.commitments) < |c.leaves|
    ensures var n := NextLeaf(db.commitments);
      && (n == 0 ==> StoredBefore(sc, c, db, c.leaves[0].ledger))
      && (n > 0 ==>
            && StoredBefore(sc, c, db, RewindTarget(db, deploy, n))
            && RewindTarget(db, deploy, n) <= c.leaves[n].ledger)
  {
    var n := NextLeaf(db.commitments);
    EmptyIffNextZero(db);
    if n == 0 {
      NothingBeforeLeafZero(sc, c, db);
    } else {
      StoredBeforeLast(sc, c, db, n);
      assert RewindTarget(db, deploy, n) == c.leaves[n - 1].ledger;
    }
  }

  /** Healing: over a faithful source a loop that ends without error has stored every true event in scope up
      to `safe` exactly when nothing was missing before its start or its range holds a leaf that shows the
      gap; it needs at most one rewind or re-anchor. */
  lemma RescanHeals(sc: Scope, c: Chain, cfg: Config, src: Source, k: nat, db: Tables, deploy: int, from: int,
                    safe: int)
    requires cfg.scanWindow > 0 && cfg.maxRescan > 0 && Faithful(cfg.pageLimit, c, src) && ValidChain(c)
    requires LoopOk(c, db, deploy, from) && ClosedFor(sc, c, db) && from <= safe
    ensures var o := Rescan(cfg, src, k, db, deploy, from, safe, 0, 0);
      && (o.error.None? ==>
            (StoredBefore(sc, c, o.db, safe + 1) <==> StoredBefore(sc, c, db, from) || LeafWithin(c, from, safe)))
      && o.reanchors + o.rewinds <= 1
  {
    hide IngestRange, StoredBefore, ClosedFor, Faithful, LeafWithin, WalkBack, RewindTarget;
    var p := IngestRange(cfg, src, k, db, from, safe);
    if StoredBefore(sc, c, db, from) {
      CleanPass(sc, c, cfg, src, k, db, from, safe);
      StoredOtherFlags(sc, c, p.db, p.db.(gap := false), safe + 1);
    } else {
      FirstMissingBefore(sc, c, db, from);
      LatePass(c, cfg, src, k, db, from, safe);
      if p.result.Done? {
        StoredOtherFlags(sc, c, db, p.db.(gap := false), safe + 1);
        LateMissing(sc, c, db, from, safe);
      } else if p.result.GapAt? {
        HealAfterGap(sc, c, cfg, src, p, db, deploy, from, safe);
      }
    }
  }

  lemma StoredOtherFlags(sc: Scope, c: Chain, db: Tables, db': Tables, bound: int)
    requires db'.commitments == db.commitments && db'.nullifiers == db.nullifiers
    ensures StoredBefore(sc, c, db', bound) <==> StoredBefore(sc, c, db, bound)
  {
    forall e ensures Stored(db', e) <==> Stored(db, e) {
    }
  }

  lemma LateMissing(sc: Scope, c: Chain, db: Tables, from: int, safe: int)
    requires from <= safe && !StoredBefore(sc, c, db, from)
    ensures !StoredBefore(sc, c, db, safe + 1)
  {
  }

  /** The second pass of a healing loop. */
  lemma HealAfterGap(sc: Scope, c: Chain, cfg: Config, src: Source, p: Pass, db: Tables, deploy: int, from: int,
                     safe: int)
    requires cfg.scanWindow > 0 && cfg.maxRescan > 0 && Faithful(cfg.pageLimit, c, src) && ValidChain(c)
    requires LoopOk(c, db, deploy, from) && ClosedFor(sc, c, db)
    requires NextLeaf(db.commitments) < |c.leaves| && p.result == GapAt(NextLeaf(db.commitments))
    requires p.db.commitments == db.commitments && p.db.nullifiers == db.nullifiers && p.db.deploy == db.deploy
    ensures NextLeaf(db.commitments) == 0 ==>
              var w := WalkBack(cfg, src, p.k, WalkStart(cfg, safe), safe);
              w.Found? ==>
                var o := Rescan(cfg, src, w.k, p.db.(deploy := Some(w.ledger)), w.ledger, w.ledger, safe, 1, 0);
                && (o.error.None? ==> StoredBefore(sc, c, o.db, safe + 1))
                && o.reanchors == 1 && o.rewinds == 0
    ensures NextLeaf(db.commitments) > 0 ==>
              var db' := p.db.(gap := true);
              var o := Rescan(cfg, src, p.k, db', deploy, RewindTarget(db', deploy, NextLeaf(db.commitments)), safe,
                              0, 1);
              && (o.error.None? ==> StoredBefore(sc, c, o.db, safe + 1))
              && o.reanchors == 0 && o.rewinds == 1
  {
    hide IngestRange, StoredBefore, ClosedFor, Faithful, WalkBack;
    var n := NextLeaf(db.commitments);
    ReturnIsEarlyEnough(sc, c, db, deploy);
    if n == 0 {
      var w := WalkBack(cfg, src, p.k, WalkStart(cfg, safe), safe);
      FaithfulIsTruthful(cfg.pageLimit, c, src);
      WalkBackTruthful(c, cfg, src, p.k, WalkStart(cfg, safe), safe);
      if w.Found? {
        SecondPass(sc, c, cfg, src, w.k, db, p.db.(deploy := Some(w.ledger)), w.ledger, w.ledger, safe, 1, 0);
      }
    } else {
      var db' := p.db.(gap := true);
      SecondPass(sc, c, cfg, src, p.k, db, db', deploy, RewindTarget(db', deploy, n), safe, 0, 1);
    }
  }

  lemma FaithfulIsTruthful(limit: nat, c: Chain, src: Source)
    requires Faithful(limit, c, src)
    ensures Truthful(c, src)
  {
  }

  lemma SecondPass(sc: Scope, c: Chain, cfg: Config, src: Source, k: nat, db: Tables, db': Tables, deploy: int,
                   from: int, safe: int,
                   reanchors: nat, rewinds: nat)
    requires cfg.scanWindow > 0 && rewinds <= cfg.maxRescan && Faithful(cfg.pageLimit, c, src) && ValidChain(c)
             && Mirrors(c, db)
    requires db'.commitments == db.commitments && db'.nullifiers == db.nullifiers
    requires StoredBefore(sc, c, db, from)
    ensures var o := Rescan(cfg, src, k, db', deploy, from, safe, reanchors, rewinds);
      && (o.error.None? ==> StoredBefore(sc, c, o.db, safe + 1))
      && o.reanchors == reanchors && o.rewinds == rewinds
  {
    hide IngestRange, StoredBefore, Faithful;
    StoredOtherFlags(sc, c, db, db', from);
    CleanPass(sc, c, cfg, src, k, db', from, safe);
    var p := IngestRange(cfg, src, k, db', from, safe);
    StoredOtherFlags(sc, c, p.db, p.db.(gap := false), safe + 1);
  }

  // ----- ticks

  datatype TickInput = TickInput(src: Source, k: nat, ledgers: Ledgers)

  ghost function AfterTicks(cfg: Config, db: Tables, ticks: seq<TickInput>): Tables
    requires cfg.scanWindow > 0
  {
    if ticks == [] then db
    else
      var t := ticks[|ticks| - 1];
      Tick(cfg, t.src, t.k, AfterTicks(cfg, db, ticks[..|ticks| - 1]), t.ledgers).db
  }

  /** Whatever ticks ran before, over truthful sources that hid events, failed, or were cut off at any call,
      the tables are in order; if ledgers were hidden whole, they are closed under ledgers as well. */
  lemma {:induction false} TicksKeep(sc: Scope, c: Chain, cfg: Config, ticks: seq<TickInput>)
    requires cfg.scanWindow > 0
    requires forall t :: t in ticks ==> Shown(sc, cfg, c, t.src)
    ensures DbOk(c, AfterTicks(cfg, EMPTY, ticks)) && ClosedFor(sc, c, AfterTicks(cfg, EMPTY, ticks))
  {
    hide Tick, DbOk, Closed, Truthful, LedgerWise;
    if ticks == [] {
      EmptyDbOk(sc, c);
    } else {
      var front, t := ticks[..|ticks| - 1], ticks[|ticks| - 1];
      assert ticks == front + [t];
      assert t in ticks;
      TicksKeep(sc, c, cfg, front);
      TickKeeps(c, cfg, t.src, t.k, AfterTicks(cfg, EMPTY, front), t.ledgers);
      if sc.Everything? {
        TickKeepsClosed(c, cfg, t.src, t.k, AfterTicks(cfg, EMPTY, front), t.ledgers);
      }
    }
  }

  lemma EmptyDbOk(sc: Scope, c: Chain)
    ensures DbOk(c, EMPTY) && ClosedFor(sc, c, EMPTY)
  {
    EmptyOk(ByLedger(), c);
  }

  /** Self-healing: after any history of such ticks, a tick over a faithful source that has a range to
      scan and ends without error leaves every true event in scope up to `safe` stored exactly when none
      was missing before its start or its range shows a leaf. The leaves heal whatever was hidden before;
      everything heals when whole ledgers were. */
  lemma SelfHealing(sc: Scope, c: Chain, cfg: Config, ticks: seq<TickInput>, src: Source, k: nat, l: Ledgers)
    requires cfg.scanWindow > 0 && cfg.maxRescan > 0 && ValidChain(c)
    requires forall t :: t in ticks ==> Shown(sc, cfg, c, t.src)
    requires Faithful(cfg.pageLimit, c, src) && l.latest.Some?
    ensures var db := AfterTicks(cfg, EMPTY, ticks);
      var a := FindAnchor(cfg, src, k, db, l);
      var o := Tick(cfg, src, k, db, l);
      a.Anchored? && o.error.None? ==>
        var from := if db.commitments == map[] then a.deploy else db.cursor + 1;
        var safe := l.latest.value - cfg.confirmations;
        from <= safe ==>
          (StoredBefore(sc, c, o.db, safe + 1) <==> StoredBefore(sc, c, db, from) || LeafWithin(c, from, safe))
  {
    hide StoredBefore, LeafWithin, Faithful, ClosedFor, Rescan, AfterTicks;
    var db := AfterTicks(cfg, EMPTY, ticks);
    TicksKeep(sc, c, cfg, ticks);
    EmptyIffNextZero(db);
    var a := FindAnchor(cfg, src, k, db, l);
    if a.Anchored? {
      var from, safe := StartOf(a.db, a.deploy), l.latest.value - cfg.confirmations;
      ClosedForSameTables(sc, c, db, a.db);
      StoredOtherFlags(sc, c, db, a.db, from);
      if from <= safe {
        RescanHeals(sc, c, cfg, src, a.k, a.db, a.deploy, from, safe);
      }
    }
  }
}
