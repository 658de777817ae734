/** How long a tick can go on, and when it is sure to end well. */
module IndexerBounds {
  import opened Basics
  import opened IndexerDb
  import opened IndexerSafety
  import opened Indexer
  import opened IndexerHealing

  // ----- re-anchoring

  ghost predicate AnswerShows(c: Chain, shown: bool, from: int, to: int, a: Answer) {
    a.Fetched? && |c.leaves| > 0 && from <= c.leaves[0].ledger <= to ==> (LeafEvent(c, 0) in a.events <==> shown)
  }

  /** The visibility of leaf 0 is fixed: every page that arrives and covers its ledger shows it, or none does.
      Anything else may come and go. */
  ghost predicate LeafZeroFixed(c: Chain, cfg: Config, src: Source, shown: bool) {
    forall k, from, to :: AnswerShows(c, shown, from, to, FetchRange(cfg, src, k, from, to))
  }

  /** The pass starts where it cannot stop at leaf 0: the leaf is stored, or visible in its range. */
  ghost predicate LeafZeroAhead(c: Chain, db: Tables, shown: bool, from: int, safe: int) {
    || NextLeaf(db.commitments) > 0
    || (|c.leaves| > 0 && shown && from <= c.leaves[0].ledger <= safe)
  }

  lemma WindowPassesLeafZero(c: Chain, cfg: Config, src: Source, shown: bool, k: nat, db: Tables, from: int, to: int,
                             safe: int)
    requires LeafZeroFixed(c, cfg, src, shown) && Truthful(c, src) && ValidChain(c) && Mirrors(c, db) && to <= safe
    requires FetchRange(cfg, src, k, from, to).Fetched? && LeafZeroAhead(c, db, shown, from, safe)
    ensures var (db', r) := BatchStep(db, FetchRange(cfg, src, k, from, to).events, to);
      && r != Gap(0) && Mirrors(c, db') && db'.deploy == db.deploy
      && NextLeaf(db.commitments) <= NextLeaf(db'.commitments)
      && (r.Applied? ==> LeafZeroAhead(c, db', shown, to + 1, safe))
  {
    hide BatchStep, FetchRange, Mirrors, Truthful;
    var a := FetchRange(cfg, src, k, from, to);
    assert AnswerShows(c, shown, from, to, a);
    FetchTruthful(c, cfg, src, k, from, to);
    BatchGenuine(c, db, a.events, to);
    var (db', r) := BatchStep(db, a.events, to);
    if NextLeaf(db.commitments) == 0 {
      if c.leaves[0].ledger <= to {
        var e := LeafEvent(c, 0);
        assert e in a.events;
        assert BatchHasIndex(a.events, 0);
        assert Stored(db', e) ==> 0 in db'.commitments;
      } else {
        forall e | e in a.events ensures !e.Commitment? {
          assert Genuine(c, e);
        }
      }
    }
  }

  lemma {:induction false} PassPassesLeafZero(c: Chain, cfg: Config, src: Source, shown: bool, k: nat, db: Tables,
                                              from: int, safe: int)
    requires cfg.scanWindow > 0 && LeafZeroFixed(c, cfg, src, shown) && Truthful(c, src) && ValidChain(c)
             && Mirrors(c, db)
    requires LeafZeroAhead(c, db, shown, from, safe)
    ensures var p := IngestRange(cfg, src, k, db, from, safe);
      p.result != GapAt(0) && Mirrors(c, p.db) && p.db.deploy == db.deploy
          && NextLeaf(db.commitments) <= NextLeaf(p.db.commitments)
    decreases safe - from + 1
  {
    hide BatchStep, FetchRange, Mirrors, LeafZeroFixed, LeafZeroAhead, Truthful;
    if from <= safe {
      var to := WindowEnd(cfg, from, safe);
      var f := FetchRange(cfg, src, k, from, to);
      if f.Fetched? && !(f.oldest > 0 && from < f.oldest) {
        WindowPassesLeafZero(c, cfg, src, shown, k, db, from, to, safe);
        var (db', r) := BatchStep(db, f.events, to);
        if r.Applied? {
          PassPassesLeafZero(c, cfg, src, shown, k + 1, db', to + 1, safe);
        }
      }
    }
  }

  lemma {:induction false} WalkBackSees(c: Chain, cfg: Config, src: Source, shown: bool, k: nat, from: int, last: int)
    requires cfg.scanWindow > 0 && LeafZeroFixed(c, cfg, src, shown) && Truthful(c, src)
    ensures var w := WalkBack(cfg, src, k, from, last);
      w.Found? ==> |c.leaves| > 0 && w.ledger == c.leaves[0].ledger <= last && shown
    decreases last - from + 1
  {
    hide FetchRange, Truthful;
    if from <= last {
      var to := WindowEnd(cfg, from, last);
      var f := FetchRange(cfg, src, k, from, to);
      assert AnswerShows(c, shown, from, to, f);
      if f.Fetched? {
        FetchTruthful(c, cfg, src, k, from, to);
        LeafZeroGenuine(c, f.events);
        WalkBackSees(c, cfg, src, shown, k + 1, to + 1, last);
      }
    }
  }

  ghost predicate PastLeafZero(c: Chain, db: Tables, shown: bool, deploy: int, from: int, safe: int) {
    || NextLeaf(db.commitments) > 0
    || (|c.leaves| > 0 && shown && from == deploy == c.leaves[0].ledger <= safe)
  }

  lemma {:induction false} NoMoreReanchors(c: Chain, cfg: Config, src: Source, shown: bool, k: nat, db: Tables,
                                           deploy: int, from: int,
                                           safe: int, reanchors: nat, rewinds: nat)
    requires cfg.scanWindow > 0 && rewinds <= cfg.maxRescan && LeafZeroFixed(c, cfg, src, shown) && Truthful(c, src)
    requires ValidChain(c) && Mirrors(c, db) && PastLeafZero(c, db, shown, deploy, from, safe)
    ensures Rescan(cfg, src, k, db, deploy, from, safe, reanchors, rewinds).reanchors == reanchors
    decreases src.calls - k
  {
    hide IngestRange, LeafZeroFixed, Truthful;
    PassPassesLeafZero(c, cfg, src, shown, k, db, from, safe);
    var p := IngestRange(cfg, src, k, db, from, safe);
    if p.result.GapAt? && rewinds + 1 <= cfg.maxRescan {
      EmptyIffNextZero(p.db);
      var db' := p.db.(gap := true);
      NoMoreReanchors(c, cfg, src, shown, p.k, db', deploy, RewindTarget(db', deploy, p.result.expected), safe,
                      reanchors, rewinds + 1);
    }
  }

  /** While the visibility of leaf 0 is fixed a loop re-anchors at most once, whatever else comes and goes. */
  lemma {:induction false} ReanchorsOnce(c: Chain, cfg: Config, src: Source, shown: bool, k: nat, db: Tables,
                                         deploy: int, from: int,
                                         safe: int, rewinds: nat)
    requires cfg.scanWindow > 0 && rewinds <= cfg.maxRescan && LeafZeroFixed(c, cfg, src, shown) && Truthful(c, src)
             && ValidChain(c)
    requires LoopOk(c, db, deploy, from)
    ensures Rescan(cfg, src, k, db, deploy, from, safe, 0, rewinds).reanchors <= 1
    decreases src.calls - k
  {
    hide IngestRange, LeafZeroFixed, Truthful, WalkBack;
    var p := IngestRange(cfg, src, k, db, from, safe);
    if p.result.GapAt? {
      AfterGap(c, cfg, src, k, db, deploy, from, safe);
      if p.result.expected == 0 {
        var w := WalkBack(cfg, src, p.k, WalkStart(cfg, safe), safe);
        WalkBackSees(c, cfg, src, shown, p.k, WalkStart(cfg, safe), safe);
        if w.Found? {
          NoMoreReanchors(c, cfg, src, shown, w.k, p.db.(deploy := Some(w.ledger)), w.ledger, w.ledger, safe, 1,
                          rewinds);
        }
      } else if rewinds + 1 <= cfg.maxRescan {
        var db' := p.db.(gap := true);
        ReanchorsOnce(c, cfg, src, shown, p.k, db', deploy, RewindTarget(db', deploy, p.result.expected), safe,
                      rewinds + 1);
      }
    }
  }

  /** The same for a whole tick, from any database a tick can leave. */
  lemma TickReanchorsOnce(c: Chain, cfg: Config, src: Source, shown: bool, k: nat, db: Tables, l: Ledgers)
    requires cfg.scanWindow > 0 && LeafZeroFixed(c, cfg, src, shown) && Truthful(c, src) && ValidChain(c) && DbOk(c, db)
    ensures Tick(cfg, src, k, db, l).reanchors <= 1
  {
    hide Rescan, WalkBack, Truthful, LeafZeroFixed, Mirrors;
    EmptyIffNextZero(db);
    AnchorIsOk(c, cfg, src, k, db, l);
    var a := FindAnchor(cfg, src, k, db, l);
    if a.Anchored? && l.latest.Some? {
      var safe, from := l.latest.value - cfg.confirmations, StartOf(a.db, a.deploy);
      if from <= safe {
        ReanchorsOnce(c, cfg, src, shown, a.k, a.db, a.deploy, from, safe, 0);
      }
    }
  }

  // ----- when leaf 0 comes and goes there is no bound

  const LEAF0 := Commitment(0, 7, [], 5, 1)
  const LEAF1 := Commitment(1, 8, [], 6, 2)
  const TWO_LEAVES := Chain([RowOf(LEAF0), RowOf(LEAF1)], map[])

  /** Shows only ledger 6, with leaf 1, to every scan, and only ledger 5, with leaf 0, to the walk-back that
      follows it. */
  function Flicker(calls: nat): Source {
    Source((k: nat, from: int, to: int) =>
             if k % 2 == 0 then (if from <= 6 then Page([Known(LEAF1)], 0) else Page([], 0))
             else (if from <= 5 then Page([Known(LEAF0)], 0) else Page([], 0)), calls)
  }

  lemma DecodeOne(e: Event, to: int)
    ensures Decode([Known(e)], to) == Some(if e.ledger <= to then [e] else [])
    ensures Decode([], to) == Some([])
  {
    assert Decode([], to) == Some([]);
    assert [Known(e)][..0] == [] && [] + [e] == [e];
  }

  lemma FlickerScan(k: nat, calls: nat, db: Tables, from: int)
    requires k < calls && k % 2 == 0 && db.commitments == map[] && 5 <= from <= 6
    ensures IngestRange(DEPLOYED, Flicker(calls), k, db, from, 6) == Pass(db, k + 1, GapAt(0))
  {
    DecodeOne(LEAF1, 6);
    assert FetchRange(DEPLOYED, Flicker(calls), k, from, 6) == Fetched([LEAF1], 0);
    EmptyIffNextZero(db);
    assert Commits([LEAF1]) == [LEAF1];
    assert Sorted([LEAF1][1..]) == [];
    assert BatchCommits([LEAF1]) == [LEAF1];
    assert Absorb(db.commitments, 0, [LEAF1]) == Absorbed(db.commitments, Gap(0));
  }

  lemma FlickerWalk(k: nat, calls: nat)
    requires k < calls && k % 2 == 1
    ensures WalkBack(DEPLOYED, Flicker(calls), k, 1, 6) == Found(5, k + 1)
  {
    DecodeOne(LEAF0, 6);
    assert FetchRange(DEPLOYED, Flicker(calls), k, 1, 6) == Fetched([LEAF0], 0);
  }

  lemma {:induction false} FlickerLoops(n: nat, k: nat, db: Tables, from: int, reanchors: nat)
    requires db.commitments == map[] && k % 2 == 0 && 5 <= from <= 6
    ensures Rescan(DEPLOYED, Flicker(k + 2 * n), k, db, from, from, 6, reanchors, 0).reanchors == reanchors + n
    decreases n
  {
    hide IngestRange, WalkBack, Flicker;
    if n == 0 {
      FlickerCancelled(k, db, from);
    } else {
      FlickerScan(k, k + 2 * n, db, from);
      FlickerWalk(k + 1, k + 2 * n);
      FlickerLoops(n - 1, k + 2, db.(deploy := Some(5)), 5, reanchors + 1);
      assert k + 2 + 2 * (n - 1) == k + 2 * n;
    }
  }

  lemma FlickerCancelled(k: nat, db: Tables, from: int)
    requires 5 <= from <= 6
    ensures IngestRange(DEPLOYED, Flicker(k), k, db, from, 6) == Pass(db, k + 1, Failed(Rpc))
  {
    assert FetchRange(DEPLOYED, Flicker(k), k, from, 6) == FetchFailed(Rpc);
  }

  /** Flicker shows true events only, and each ledger whole or not at all. */
  lemma FlickerIsFair(calls: nat)
    ensures ValidChain(TWO_LEAVES) && Truthful(TWO_LEAVES, Flicker(calls))
            && LedgerWise(DEPLOYED, TWO_LEAVES, Flicker(calls))
  {
    var src := Flicker(calls);
    forall k, from, to ensures TruthfulPage(TWO_LEAVES, from, src.respond(k, from, to)) {
      var r := src.respond(k, from, to);
      forall e | Known(e) in r.raws ensures Genuine(TWO_LEAVES, e) && from <= e.ledger {
        assert e == LEAF0 || e == LEAF1;
      }
    }
    forall k, from, to ensures WholeAnswer(TWO_LEAVES, FetchRange(DEPLOYED, src, k, from, to)) {
      DecodeOne(LEAF0, to);
      DecodeOne(LEAF1, to);
    }
  }

  /** The first tick at ledger 7, anchored too late by an instance entry of ledger 6. */
  lemma FirstTick(src: Source)
    ensures Tick(DEPLOYED, src, 0, EMPTY, Ledgers(Some(7), Some(6), Some(7)))
         == Rescan(DEPLOYED, src, 0, EMPTY.(deploy := Some(6)), 6, 6, 6, 0, 0)
    ensures EMPTY.commitments == map[]
  {
    hide Rescan, WalkBack;
    EmptyIffNextZero(EMPTY.(deploy := Some(6)));
  }

  /** The re-anchoring branch is not counted: over a source that shows only true events, ledger by ledger, but
      changes its mind between scan and walk-back, the first tick on an empty database re-anchors for as many
      rounds as the source has calls. */
  lemma ReanchorsUnbounded(n: nat)
    ensures ValidChain(TWO_LEAVES) && Truthful(TWO_LEAVES, Flicker(2 * n))
            && LedgerWise(DEPLOYED, TWO_LEAVES, Flicker(2 * n))
    ensures Tick(DEPLOYED, Flicker(2 * n), 0, EMPTY, Ledgers(Some(7), Some(6), Some(7))).reanchors == n
  {
    hide *;
    FlickerIsFair(2 * n);
    FirstTick(Flicker(2 * n));
    FlickerLoops(n, 0, EMPTY.(deploy := Some(6)), 6, 0);
  }

  // ----- success

  ghost predicate GoodAnswer(floor: int, a: Answer) {
    a.Fetched? && a.oldest <= floor
  }

  /** Until its calls run out the source answers every window from `floor` on: nothing fails, no page
      reaches the limit, nothing is out of retention. */
  ghost predicate Available(cfg: Config, src: Source, floor: int) {
    forall k: nat, from: int, to: int :: k < src.calls && floor <= from ==>
        GoodAnswer(floor, FetchRange(cfg, src, k, from, to))
  }

  /** No leaf up to a ledger repeats an earlier commitment. */
  ghost predicate DistinctUpTo(c: Chain, safe: int) {
    forall m: nat :: m < |c.leaves| && c.leaves[m].ledger <= safe ==> DistinctTo(c, m + 1)
  }

  lemma NoDuplicate(c: Chain, db: Tables, events: seq<Event>, to: int, safe: int)
    requires Mirrors(c, db) && AllGenuine(c, events) && DistinctUpTo(c, safe)
    requires forall e :: e in events ==> e.ledger <= safe
    ensures !BatchStep(db, events, to).1.DuplicateValue?
  {
    hide BatchStep;
    BatchGenuine(c, db, events, to);
    forall m: nat | m < |c.leaves| && BatchHasIndex(events, m) ensures DistinctTo(c, m + 1) {
      var e :| e in events && e.Commitment? && e.index == m;
      assert Genuine(c, e);
    }
  }

  /** With distinct commitments an available pass ends or reports a gap, within one call per ledger. */
  lemma {:induction false} PassSucceeds(c: Chain, cfg: Config, src: Source, k: nat, db: Tables, from: int, safe: int,
                                        floor: int)
    requires cfg.scanWindow > 0 && Truthful(c, src) && Available(cfg, src, floor) && Mirrors(c, db)
             && DistinctUpTo(c, safe)
    requires floor <= from <= safe + 1 && k + (safe - from + 1) <= src.calls
    ensures var p := IngestRange(cfg, src, k, db, from, safe);
      !p.result.Failed? && p.k <= k + (safe - from + 1)
    decreases safe - from + 1
  {
    hide BatchStep, FetchRange, Mirrors, Available, Truthful, DistinctUpTo;
    if from <= safe {
      var to := WindowEnd(cfg, from, safe);
      AvailableAt(cfg, src, floor, k, from, to);
      var f := FetchRange(cfg, src, k, from, to);
      FetchTruthful(c, cfg, src, k, from, to);
      NoDuplicate(c, db, f.events, to, safe);
      BatchGenuine(c, db, f.events, to);
      var (db', r) := BatchStep(db, f.events, to);
      if r.Applied? {
        PassSucceeds(c, cfg, src, k + 1, db', to + 1, safe, floor);
      }
    }
  }

  lemma AvailableAt(cfg: Config, src: Source, floor: int, k: nat, from: int, to: int)
    requires Available(cfg, src, floor) && k < src.calls && floor <= from
    ensures FetchRange(cfg, src, k, from, to).Fetched? && FetchRange(cfg, src, k, from, to).oldest <= floor
  {
    assert GoodAnswer(floor, FetchRange(cfg, src, k, from, to));
  }

  lemma {:induction false} WalkBackSucceeds(c: Chain, cfg: Config, src: Source, k: nat, from: int, last: int,
                                            floor: int)
    requires cfg.scanWindow > 0 && Faithful(cfg.pageLimit, c, src) && Available(cfg, src, floor)
    requires |c.leaves| > 0 && floor <= from <= c.leaves[0].ledger <= last && k + (last - from + 1) <= src.calls
    ensures var w := WalkBack(cfg, src, k, from, last);
      w.Found? && w.k <= k + (last - from + 1)
    decreases last - from + 1
  {
    hide FetchRange, Available, Faithful, Truthful;
    var to := WindowEnd(cfg, from, last);
    AvailableAt(cfg, src, floor, k, from, to);
    var f := FetchRange(cfg, src, k, from, to);
    FaithfulIsTruthful(cfg.pageLimit, c, src);
    FetchTruthful(c, cfg, src, k, from, to);
    FetchFaithful(c, cfg, src, k, from, to);
    LeafZeroGenuine(c, f.events);
    if c.leaves[0].ledger <= to {
      assert Genuine(c, LeafEvent(c, 0)) && LeafEvent(c, 0) in f.events;
      assert BatchHasIndex(f.events, 0);
    } else {
      WalkBackSucceeds(c, cfg, src, k + 1, to + 1, last, floor);
    }
  }

  /** First ledger a healing loop may have to go back to. */
  ghost function ReturnLedger(c: Chain, db: Tables): int
    requires NextLeaf(db.commitments) <= |c.leaves|
  {
    var n := NextLeaf(db.commitments);
    if n > 0 then c.leaves[n - 1].ledger else if |c.leaves| > 0 then c.leaves[0].ledger else 0
  }

  /** Success: over a faithful, available source with distinct commitments up to `safe`, within retention and with
      room for three sweeps, a tick's loop ends without error, hence with everything up to `safe` stored
      exactly when nothing was missing before its start or its range shows a leaf. */
  lemma HealsWhenAvailable(sc: Scope, c: Chain, cfg: Config, src: Source, k: nat, db: Tables, deploy: int, from: int,
                           safe: int, floor: int)
    requires cfg.scanWindow > 0 && cfg.maxRescan > 0 && Faithful(cfg.pageLimit, c, src) && Available(cfg, src, floor)
             && ValidChain(c)
    requires LoopOk(c, db, deploy, from) && ClosedFor(sc, c, db) && DistinctUpTo(c, safe)
    requires floor <= from <= safe && floor <= Max(1, safe - cfg.retention) && floor <= ReturnLedger(c, db)
    requires |c.leaves| > 0 ==> Max(1, safe - cfg.retention) <= c.leaves[0].ledger
    requires k + 3 * (safe - floor + 1) <= src.calls
    ensures var o := Rescan(cfg, src, k, db, deploy, from, safe, 0, 0);
      && o.error.None?
      && (StoredBefore(sc, c, o.db, safe + 1) <==> StoredBefore(sc, c, db, from) || LeafWithin(c, from, safe))
  {
    hide IngestRange, StoredBefore, ClosedFor, Faithful, Truthful, Available, DistinctUpTo, LeafWithin, WalkBack,
         RewindTarget;
    RescanHeals(sc, c, cfg, src, k, db, deploy, from, safe);
    FaithfulIsTruthful(cfg.pageLimit, c, src);
    PassSucceeds(c, cfg, src, k, db, from, safe, floor);
    var p := IngestRange(cfg, src, k, db, from, safe);
    if StoredBefore(LeavesOnly, c, db, from) {
      CleanPass(LeavesOnly, c, cfg, src, k, db, from, safe);
    } else {
      FirstMissingBefore(LeavesOnly, c, db, from);
      LatePass(c, cfg, src, k, db, from, safe);
      if p.result.GapAt? {
        SecondSucceeds(c, cfg, src, p, db, deploy, from, safe, floor);
      }
    }
  }

  lemma SecondSucceeds(c: Chain, cfg: Config, src: Source, p: Pass, db: Tables, deploy: int, from: int, safe: int,
                       floor: int)
    requires cfg.scanWindow > 0 && cfg.maxRescan > 0 && Faithful(cfg.pageLimit, c, src) && Available(cfg, src, floor)
             && ValidChain(c)
    requires LoopOk(c, db, deploy, from) && DistinctUpTo(c, safe)
    requires NextLeaf(db.commitments) < |c.leaves| && c.leaves[NextLeaf(db.commitments)].ledger < from <= safe
    requires floor <= Max(1, safe - cfg.retention) <= c.leaves[0].ledger && floor <= ReturnLedger(c, db)
    requires p.result == GapAt(NextLeaf(db.commitments)) && p.k + 2 * (safe - floor + 1) <= src.calls
    requires p.db.commitments == db.commitments && p.db.nullifiers == db.nullifiers && p.db.deploy == db.deploy
    ensures NextLeaf(db.commitments) == 0 ==>
              var w := WalkBack(cfg, src, p.k, WalkStart(cfg, safe), safe);
              w.Found? &&
              Rescan(cfg, src, w.k, p.db.(deploy := Some(w.ledger)), w.ledger, w.ledger, safe, 1, 0).error.None?
    ensures NextLeaf(db.commitments) > 0 ==>
              var db', n := p.db.(gap := true), NextLeaf(db.commitments);
              Rescan(cfg, src, p.k, db', deploy, RewindTarget(db', deploy, n), safe, 0, 1).error.None?
  {
    hide IngestRange, StoredBefore, ClosedFor, Faithful, Truthful, Available, DistinctUpTo, WalkBack;
    var n := NextLeaf(db.commitments);
    FaithfulIsTruthful(cfg.pageLimit, c, src);
    ReturnIsEarlyEnough(LeavesOnly, c, db, deploy);
    if n == 0 {
      var w := WalkBack(cfg, src, p.k, WalkStart(cfg, safe), safe);
      WalkBackSucceeds(c, cfg, src, p.k, WalkStart(cfg, safe), safe, floor);
      WalkBackTruthful(c, cfg, src, p.k, WalkStart(cfg, safe), safe);
      LastPassSucceeds(c, cfg, src, w.k, db, p.db.(deploy := Some(w.ledger)), w.ledger, w.ledger, safe, floor, 1, 0);
    } else {
      var db' := p.db.(gap := true);
      LastPassSucceeds(c, cfg, src, p.k, db, db', deploy, RewindTarget(db', deploy, n), safe, floor, 0, 1);
    }
  }

  lemma LastPassSucceeds(c: Chain, cfg: Config, src: Source, k: nat, db: Tables, db': Tables, deploy: int, from: int,
                         safe: int, floor: int,
                         reanchors: nat, rewinds: nat)
    requires cfg.scanWindow > 0 && rewinds <= cfg.maxRescan && Faithful(cfg.pageLimit, c, src)
             && Available(cfg, src, floor)
             && ValidChain(c)
    requires Mirrors(c, db) && DistinctUpTo(c, safe) && StoredBefore(LeavesOnly, c, db, from)
    requires db'.commitments == db.commitments && db'.nullifiers == db.nullifiers
    requires floor <= from <= safe + 1 && k + (safe - from + 1) <= src.calls
    ensures Rescan(cfg, src, k, db', deploy, from, safe, reanchors, rewinds).error.None?
  {
    hide IngestRange, StoredBefore, Faithful, Truthful, Available, DistinctUpTo;
    FaithfulIsTruthful(cfg.pageLimit, c, src);
    StoredOtherFlags(LeavesOnly, c, db, db', from);
    CleanPass(LeavesOnly, c, cfg, src, k, db', from, safe);
    PassSucceeds(c, cfg, src, k, db', from, safe, floor);
  }

  /** Success of a tick after any history: when it is anchored and has a range to scan, it ends without error and
      with everything up to `safe` stored, under the same condition. */
  lemma TickSucceeds(sc: Scope, c: Chain, cfg: Config, ticks: seq<TickInput>, src: Source, k: nat, l: Ledgers,
                     floor: int)
    requires cfg.scanWindow > 0 && cfg.maxRescan > 0 && ValidChain(c)
    requires forall t :: t in ticks ==> Shown(sc, cfg, c, t.src)
    requires Faithful(cfg.pageLimit, c, src) && Available(cfg, src, floor) && l.latest.Some?
    requires DistinctUpTo(c, l.latest.value - cfg.confirmations)
    requires var db := AfterTicks(cfg, EMPTY, ticks);
      var a, safe := FindAnchor(cfg, src, k, db, l), l.latest.value - cfg.confirmations;
      && a.Anchored? && floor <= (if db.commitments == map[] then a.deploy else db.cursor + 1) <= safe
      && NextLeaf(db.commitments) <= |c.leaves| && floor <= ReturnLedger(c, db)
      && floor <= Max(1, safe - cfg.retention)
      && (|c.leaves| > 0 ==> Max(1, safe - cfg.retention) <= c.leaves[0].ledger)
      && a.k + 3 * (safe - floor + 1) <= src.calls
    ensures var db := AfterTicks(cfg, EMPTY, ticks);
      var a, o := FindAnchor(cfg, src, k, db, l), Tick(cfg, src, k, db, l);
      var from, safe := if db.commitments == map[] then a.deploy else db.cursor + 1, l.latest.value - cfg.confirmations;
      && o.error.None?
      && (StoredBefore(sc, c, o.db, safe + 1) <==> StoredBefore(sc, c, db, from) || LeafWithin(c, from, safe))
  {
    hide StoredBefore, LeafWithin, Faithful, ClosedFor, Rescan, AfterTicks, Available, DistinctUpTo, WalkBack, DbOk;
    var db := AfterTicks(cfg, EMPTY, ticks);
    TicksKeep(sc, c, cfg, ticks);
    EmptyIffNextZero(db);
    AnchorIsOk(c, cfg, src, k, db, l);
    var a := FindAnchor(cfg, src, k, db, l);
    var from, safe := StartOf(a.db, a.deploy), l.latest.value - cfg.confirmations;
    ClosedForSameTables(sc, c, db, a.db);
    StoredOtherFlags(sc, c, db, a.db, from);
    HealsWhenAvailable(sc, c, cfg, src, a.k, a.db, a.deploy, from, safe, floor);
  }

  /** Distinct commitments are also necessary: tables that hold every leaf up to a ledger prove that
      none of those leaves repeats an earlier one. */
  lemma CompleteNeedsDistinct(sc: Scope, c: Chain, db: Tables, safe: int)
    requires Mirrors(c, db) && StoredBefore(sc, c, db, safe + 1)
    ensures DistinctUpTo(c, safe)
  {
    forall m: nat | m < |c.leaves| && c.leaves[m].ledger <= safe ensures DistinctTo(c, m + 1) {
      assert Genuine(c, LeafEvent(c, m));
      assert Stored(db, LeafEvent(c, m));
      assert m in db.commitments;
    }
  }
}
