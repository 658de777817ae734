/** Where a tick starts and what it leaves behind, in terms of the tables alone: over sources that show all
    they still have, the tables stay complete up to the cursor, and the cursor keeps up with the safe ledger. */
module IndexerProgress {
  import opened Basics
  import opened IndexerDb
  import opened IndexerSafety
  import opened Indexer
  import opened IndexerHealing
  import opened IndexerTwin

  // ----- complete up to the cursor

  /** On an empty table, whatever is missing before a pass, leaf 0 is. */
  lemma EmptyMissesLeafZero(sc: Scope, c: Chain, db: Tables, from: int)
    requires ValidChain(c) && Mirrors(c, db) && db.commitments == map[] && !StoredBefore(sc, c, db, from)
    ensures NextLeaf(db.commitments) == 0 && |c.leaves| > 0 && c.leaves[0].ledger < from
  {
    EmptyIffNextZero(db);
    var e :| Genuine(c, e) && InScope(sc, e) && e.ledger < from && !Stored(db, e);
    var i: int := if e.Commitment? then e.index else WithLeaf(c, e.value);
    assert c.leaves[i].ledger == e.ledger;
  }

  lemma CursorOtherFlags(sc: Scope, c: Chain, db: Tables, db': Tables)
    requires db'.commitments == db.commitments && db'.nullifiers == db.nullifiers && db'.cursor == db.cursor
    ensures UpToCursor(sc, c, db') <==> UpToCursor(sc, c, db)
  {
    StoredOtherFlags(sc, c, db, db', db.cursor + 1);
  }

  /** A loop that starts with nothing missing, or on an empty table. */
  ghost predicate Ready(sc: Scope, c: Chain, db: Tables, from: int) {
    UpToCursor(sc, c, db) && (db.commitments != map[] ==> StoredBefore(sc, c, db, from))
  }

  lemma LoopAdvances(sc: Scope, c: Chain, cfg: Config, src: Source, k: nat, db: Tables, deploy: int, from: int,
                     safe: int)
    requires cfg.scanWindow > 0 && Faithful(cfg.pageLimit, c, src) && ValidChain(c)
    requires LoopOk(c, db, deploy, from) && Ready(sc, c, db, from) && from <= safe
    ensures var o := Rescan(cfg, src, k, db, deploy, from, safe, 0, 0);
      && UpToCursor(sc, c, o.db)
      && (o.error.None? && o.db.commitments != map[] ==> o.db.cursor == safe)
  {
    hide IngestRange, StoredBefore, UpToCursor, Faithful, WalkBack, Mirrors;
    var p := IngestRange(cfg, src, k, db, from, safe);
    if StoredBefore(sc, c, db, from) {
      CleanPass(sc, c, cfg, src, k, db, from, safe);
      CursorOtherFlags(sc, c, p.db, p.db.(gap := false));
    } else {
      EmptyMissesLeafZero(sc, c, db, from);
      LatePass(c, cfg, src, k, db, from, safe);
      EmptyUpToCursor(sc, c, p.db);
      EmptyUpToCursor(sc, c, p.db.(gap := false));
      if p.result.GapAt? {
        var w := WalkBack(cfg, src, p.k, WalkStart(cfg, safe), safe);
        FaithfulIsTruthful(cfg.pageLimit, c, src);
        WalkBackTruthful(c, cfg, src, p.k, WalkStart(cfg, safe), safe);
        if w.Found? {
          var db' := p.db.(deploy := Some(w.ledger));
          MirrorsSameTables(c, db, db');
          EmptyUpToCursor(sc, c, db');
          NothingBeforeLeafZero(sc, c, db');
          CleanPass(sc, c, cfg, src, w.k, db', w.ledger, safe);
          var p' := IngestRange(cfg, src, w.k, db', w.ledger, safe);
          CursorOtherFlags(sc, c, p'.db, p'.db.(gap := false));
        }
      }
    }
  }

  lemma EmptyUpToCursor(sc: Scope, c: Chain, db: Tables)
    requires db.commitments == map[]
    ensures UpToCursor(sc, c, db)
  {
  }

  lemma MirrorsSameTables(c: Chain, db: Tables, db': Tables)
    requires Mirrors(c, db) && db'.commitments == db.commitments && db'.nullifiers == db.nullifiers
    ensures Mirrors(c, db')
  {
  }

  /** A tick keeps the tables complete up to the cursor, even when it fails half-way, and one that ends without an
      error has brought the cursor up to the safe ledger, unless no leaf is stored yet. */
  lemma TickAdvances(sc: Scope, c: Chain, cfg: Config, src: Source, k: nat, db: Tables, l: Ledgers)
    requires cfg.scanWindow > 0 && Faithful(cfg.pageLimit, c, src) && ValidChain(c)
    requires DbOk(c, db) && UpToCursor(sc, c, db)
    ensures var o := Tick(cfg, src, k, db, l);
      && DbOk(c, o.db) && UpToCursor(sc, c, o.db)
      && (o.error.None? ==> l.latest.Some?)
      && (o.error.None? && o.db.commitments != map[] ==> l.latest.value - cfg.confirmations <= o.db.cursor)
      && (o.error.None? && db.commitments != map[] ==>
            && o.db.commitments != map[]
            && o.db.cursor == Max(db.cursor, l.latest.value - cfg.confirmations))
  {
    hide StoredBefore, UpToCursor, Faithful, Rescan, WalkBack, Mirrors;
    FaithfulIsTruthful(cfg.pageLimit, c, src);
    TickKeeps(c, cfg, src, k, db, l);
    var o := Tick(cfg, src, k, db, l);
    EmptyIffNextZero(db);
    EmptyIffNextZero(o.db);
    AnchorIsOk(c, cfg, src, k, db, l);
    var a := FindAnchor(cfg, src, k, db, l);
    CursorOtherFlags(sc, c, db, db);
    if a.Anchored? {
      CursorOtherFlags(sc, c, db, a.db);
      if l.latest.Some? {
        var from := if db.commitments == map[] then a.deploy else db.cursor + 1;
        var safe := l.latest.value - cfg.confirmations;
        if from <= safe {
          ReadyAt(sc, c, a.db, from);
          LoopAdvances(sc, c, cfg, src, a.k, a.db, a.deploy, from, safe);
        }
      }
    }
  }

  lemma ReadyAt(sc: Scope, c: Chain, db: Tables, from: int)
    requires UpToCursor(sc, c, db) && (db.commitments != map[] ==> from == db.cursor + 1)
    ensures Ready(sc, c, db, from)
  {
  }

  /** A run of ticks over such sources, however many of them fail: once a leaf is stored, every event up to the
      cursor is, and after a tick without an error the cursor is at its safe ledger or beyond. */
  lemma {:induction false} FaithfulRun(c: Chain, cfg: Config, ticks: seq<TickInput>)
    requires cfg.scanWindow > 0 && ValidChain(c)
    requires forall t :: t in ticks ==> Faithful(cfg.pageLimit, c, t.src)
    ensures var db := AfterTicks(cfg, EMPTY, ticks);
      && DbOk(c, db) && UpToCursor(Everything, c, db)
      && (ticks != [] && db.commitments != map[] ==>
            var t := ticks[|ticks| - 1];
            var o := Tick(cfg, t.src, t.k, AfterTicks(cfg, EMPTY, ticks[..|ticks| - 1]), t.ledgers);
            o.error.None? ==> t.ledgers.latest.Some? && t.ledgers.latest.value - cfg.confirmations <= db.cursor)
  {
    hide Tick, DbOk, UpToCursor, Faithful;
    if ticks == [] {
      EmptyDbOk(Everything, c);
      EmptyUpToCursor(Everything, c, EMPTY);
    } else {
      var front, t := ticks[..|ticks| - 1], ticks[|ticks| - 1];
      assert ticks == front + [t];
      assert t in ticks;
      FaithfulRun(c, cfg, front);
      TickAdvances(Everything, c, cfg, t.src, t.k, AfterTicks(cfg, EMPTY, front), t.ledgers);
    }
  }

  // ----- the twin

  lemma ScanAdvances(sc: Scope, c: Chain, cfg: Config, src: Source, k: nat, db: Tables, deploy: int, from: int,
                     safe: int)
    requires cfg.scanWindow > 0 && Faithful(cfg.pageLimit, c, src) && ValidChain(c)
    requires LoopOk(c, db, deploy, from) && Ready(sc, c, db, from) && from <= safe
    ensures var s := ScanLoop(cfg, src, k, db, deploy, from, safe, 0);
      && UpToCursor(sc, c, s.db)
      && (s.end.Complete? && s.db.commitments != map[] ==> s.db.cursor == safe)
      && (s.end.NoLeafZero? ==> s.db.commitments == map[])
  {
    hide IngestRange, StoredBefore, UpToCursor, Faithful, Mirrors;
    var p := IngestRange(cfg, src, k, db, from, safe);
    if StoredBefore(sc, c, db, from) {
      CleanPass(sc, c, cfg, src, k, db, from, safe);
      CursorOtherFlags(sc, c, p.db, p.db.(gap := false));
    } else {
      EmptyMissesLeafZero(sc, c, db, from);
      LatePass(c, cfg, src, k, db, from, safe);
      EmptyUpToCursor(sc, c, p.db);
      EmptyUpToCursor(sc, c, p.db.(gap := false));
    }
  }

  /** The same for a tick of the twin: a tick that re-anchors leaves the table empty. */
  lemma TwinAdvances(sc: Scope, c: Chain, cfg: Config, src: Source, k: nat, db: Tables, l: TwinLedgers)
    requires cfg.scanWindow > 0 && Faithful(cfg.pageLimit, c, src) && ValidChain(c)
    requires DbOk(c, db) && UpToCursor(sc, c, db)
    ensures var o := TwinTick(cfg, src, k, db, l);
      && DbOk(c, o.db) && UpToCursor(sc, c, o.db)
      && (o.error.None? ==> l.latest.Some?)
      && (o.error.None? && o.db.commitments != map[] ==> l.latest.value - cfg.confirmations <= o.db.cursor)
      && (o.error.None? && db.commitments != map[] ==>
            && o.db.commitments != map[]
            && o.db.cursor == Max(db.cursor, l.latest.value - cfg.confirmations))
  {
    hide StoredBefore, UpToCursor, Faithful, ScanLoop, WalkBack, Mirrors;
    FaithfulIsTruthful(cfg.pageLimit, c, src);
    TwinKeeps(c, cfg, src, k, db, l);
    var o := TwinTick(cfg, src, k, db, l);
    EmptyIffNextZero(db);
    EmptyIffNextZero(o.db);
    var ls := Ledgers(l.latestForDeploy, l.code, l.latest);
    AnchorIsOk(c, OneWindow(cfg), src, k, db, ls);
    var a := FindAnchor(OneWindow(cfg), src, k, db, ls);
    if a.Anchored? && l.latest.Some? {
      var from := if db.commitments == map[] then a.deploy else db.cursor + 1;
      var safe := l.latest.value - cfg.confirmations;
      CursorOtherFlags(sc, c, db, a.db);
      if from <= safe {
        ReadyAt(sc, c, a.db, from);
        ScanAdvances(sc, c, cfg, src, a.k, a.db, a.deploy, from, safe);
        var s := ScanLoop(cfg, src, a.k, a.db, a.deploy, from, safe, 0);
        if s.end.NoLeafZero? {
          RediscoverKeepsEmpty(cfg, src, s.k, s.db.(gap := true), l.latestAgain, s.rewinds);
          EmptyUpToCursor(sc, c, o.db);
        } else {
          CursorOtherFlags(sc, c, s.db, o.db);
        }
      }
    } else {
      CursorOtherFlags(sc, c, db, o.db);
    }
  }

  lemma RediscoverKeepsEmpty(cfg: Config, src: Source, k: nat, db: Tables, latest: Option<int>, rewinds: nat)
    requires db.commitments == map[]
    ensures Rediscover(cfg, src, k, db, latest, rewinds).db.commitments == map[]
  {
  }

  /** A run of the twin's ticks over such sources, each under its own configuration. */
  lemma {:induction false} TwinFaithfulRun(c: Chain, ticks: seq<TwinInput>)
    requires ValidChain(c)
    requires forall t :: t in ticks ==> t.cfg.scanWindow > 0 && Faithful(t.cfg.pageLimit, c, t.src)
    ensures var db := AfterTwinTicks(ticks);
      && DbOk(c, db) && UpToCursor(Everything, c, db)
      && (ticks != [] && db.commitments != map[] ==>
            var t := ticks[|ticks| - 1];
            var o := TwinTick(t.cfg, t.src, t.k, AfterTwinTicks(ticks[..|ticks| - 1]), t.ledgers);
            o.error.None? ==> t.ledgers.latest.Some? && t.ledgers.latest.value - t.cfg.confirmations <= db.cursor)
  {
    hide TwinTick, DbOk, UpToCursor, Faithful;
    if ticks == [] {
      EmptyDbOk(Everything, c);
      EmptyUpToCursor(Everything, c, EMPTY);
    } else {
      var front, t := ticks[..|ticks| - 1], ticks[|ticks| - 1];
      assert ticks == front + [t];
      assert t in ticks;
      TwinFaithfulRun(c, front);
      TwinAdvances(Everything, c, t.cfg, t.src, t.k, AfterTwinTicks(front), t.ledgers);
    }
  }

  // ----- what a fetch, an anchor and a pass are

  /** Every outcome of one fetch. */
  lemma FetchIs(cfg: Config, src: Source, k: nat, from: int, to: int)
    ensures k >= src.calls ==> FetchRange(cfg, src, k, from, to) == FetchFailed(Rpc)
    ensures var f, r := FetchRange(cfg, src, k, from, to), src.respond(k, from, to);
      k < src.calls ==>
        && (r.RpcFailed? ==> f == FetchFailed(Rpc))
        && (r.RetentionRefused? ==> f == FetchFailed(Retention))
        && (r.Page? && cfg.pageLimit <= |r.raws| ==> f == FetchFailed(PageLimit))
        && (r.Page? && |r.raws| < cfg.pageLimit ==>
              var broken := exists x :: x in r.raws && x.Broken? && LedgerOf(x) <= to;
              && (broken ==> f == FetchFailed(Undecodable))
              && (!broken ==> f.Fetched? && f.oldest == r.oldest
                              && forall e :: e in f.events <==> Known(e) in r.raws && e.ledger <= to))
  {
    if k < src.calls && src.respond(k, from, to).Page? {
      DecodeContents(src.respond(k, from, to).raws, to);
    }
  }

  /** The anchor is the stored ledger; else the instance entry's; else the ledger of leaf 0, found within
      retention. Either way it is stored, and nothing else changes. */
  lemma AnchorIs(c: Chain, cfg: Config, src: Source, k: nat, db: Tables, l: Ledgers)
    requires cfg.scanWindow > 0 && Truthful(c, src)
    ensures var a := FindAnchor(cfg, src, k, db, l);
      && (db.deploy.Some? ==> a == Anchored(db, db.deploy.value, k))
      && (db.deploy.None? && l.latestForDeploy.None? ==> a == Unanchored(Rpc, k))
      && (db.deploy.None? && l.latestForDeploy.Some? && l.instance.Some? ==>
            a == Anchored(db.(deploy := l.instance), l.instance.value, k))
      && (db.deploy.None? && l.latestForDeploy.Some? && l.instance.None? && a.Anchored? ==>
            && |c.leaves| > 0 && a.deploy == c.leaves[0].ledger && a.db == db.(deploy := Some(a.deploy))
            && Max(1, l.latestForDeploy.value - cfg.retention) <= a.deploy <= l.latestForDeploy.value)
  {
    hide WalkBack, Truthful;
    if l.latestForDeploy.Some? {
      var latest := l.latestForDeploy.value;
      WalkBackTruthful(c, cfg, src, k, WalkStart(cfg, latest), latest);
    }
  }

  /** A pass that ends has made one call for every window: full windows, and a last one that ends at `safe`. */
  lemma {:induction false} PassCalls(cfg: Config, src: Source, k: nat, db: Tables, from: int, safe: int)
    requires cfg.scanWindow > 0 && from <= safe && IngestRange(cfg, src, k, db, from, safe).result.Done?
    ensures var calls := IngestRange(cfg, src, k, db, from, safe).k - k;
      (calls - 1) * cfg.scanWindow <= safe - from < calls * cfg.scanWindow
    decreases safe - from
  {
    hide BatchStep, FetchRange;
    var w := cfg.scanWindow;
    var to := WindowEnd(cfg, from, safe);
    var db' := BatchStep(db, FetchRange(cfg, src, k, from, to).events, to).0;
    var rest := IngestRange(cfg, src, k + 1, db', to + 1, safe).k - (k + 1);
    if to < safe {
      PassCalls(cfg, src, k + 1, db', to + 1, safe);
      OneMoreWindow(rest, w);
    } else {
      assert rest == 0;
    }
  }

  lemma OneMoreWindow(n: int, w: int)
    ensures n * w == (n - 1) * w + w && (n + 1) * w == n * w + w
  {
  }

  // ----- the gap flag

  lemma BatchKeepsFlag(db: Tables, events: seq<Event>, safe: int)
    ensures BatchStep(db, events, safe).0.gap == db.gap
  {
  }

  lemma {:induction false} PassKeepsFlag(cfg: Config, src: Source, k: nat, db: Tables, from: int, safe: int)
    requires cfg.scanWindow > 0
    ensures IngestRange(cfg, src, k, db, from, safe).db.gap == db.gap
    decreases safe - from + 1
  {
    hide BatchStep, FetchRange;
    if from <= safe {
      var to := WindowEnd(cfg, from, safe);
      var f := FetchRange(cfg, src, k, from, to);
      if f.Fetched? {
        BatchKeepsFlag(db, f.events, to);
        PassKeepsFlag(cfg, src, k + 1, BatchStep(db, f.events, to).0, to + 1, safe);
      }
    }
  }

  /** A loop gives up on a gap only after all its rewinds. It leaves the flag down when it ends well, and raised
      when it fails after a rewind. */
  lemma {:induction false} RescanFlag(cfg: Config, src: Source, k: nat, db: Tables, deploy: int, from: int, safe: int,
                                      reanchors: nat, rewinds: nat)
    requires cfg.scanWindow > 0 && rewinds <= cfg.maxRescan
    ensures var o := Rescan(cfg, src, k, db, deploy, from, safe, reanchors, rewinds);
      && rewinds <= o.rewinds
      && (o.error.None? ==> !o.db.gap)
      && (o.error.Some? ==> (o.db.gap <==> db.gap || rewinds < o.rewinds))
      && (o.error.Some? && o.error.value.GapUnresolved? ==> o.rewinds == cfg.maxRescan)
    decreases src.calls - k
  {
    hide IngestRange, WalkBack;
    PassKeepsFlag(cfg, src, k, db, from, safe);
    PassErrors(cfg, src, k, db, from, safe);
    var p := IngestRange(cfg, src, k, db, from, safe);
    if p.result.GapAt? {
      if p.result.expected == 0 {
        WalkErrors(cfg, src, p.k, WalkStart(cfg, safe), safe);
        var w := WalkBack(cfg, src, p.k, WalkStart(cfg, safe), safe);
        if w.Found? {
          var db' := p.db.(deploy := Some(w.ledger));
          RescanFlag(cfg, src, w.k, db', w.ledger, w.ledger, safe, reanchors + 1, rewinds);
        }
      } else if rewinds + 1 <= cfg.maxRescan {
        var db' := p.db.(gap := true);
        var target := RewindTarget(db', deploy, p.result.expected);
        RescanFlag(cfg, src, p.k, db', deploy, target, safe, reanchors, rewinds + 1);
      }
    }
  }

  lemma {:induction false} PassErrors(cfg: Config, src: Source, k: nat, db: Tables, from: int, safe: int)
    requires cfg.scanWindow > 0
    ensures var p := IngestRange(cfg, src, k, db, from, safe);
      p.result.Failed? ==> !p.result.error.GapUnresolved?
    decreases safe - from + 1
  {
    hide BatchStep, Decode;
    if from <= safe {
      var to := WindowEnd(cfg, from, safe);
      var f := FetchRange(cfg, src, k, from, to);
      if f.Fetched? {
        PassErrors(cfg, src, k + 1, BatchStep(db, f.events, to).0, to + 1, safe);
      }
    }
  }

  lemma {:induction false} WalkErrors(cfg: Config, src: Source, k: nat, from: int, last: int)
    requires cfg.scanWindow > 0
    ensures var w := WalkBack(cfg, src, k, from, last);
      w.WalkFailed? ==> !w.error.GapUnresolved?
    decreases last - from + 1
  {
    hide Decode;
    if from <= last {
      WalkErrors(cfg, src, k + 1, WindowEnd(cfg, from, last) + 1, last);
    }
  }

  /** The flag after a tick: down after a scan that ended well, raised by every rewind that did not help, and
      otherwise as it was. */
  lemma TickFlag(cfg: Config, src: Source, k: nat, db: Tables, l: Ledgers)
    requires cfg.scanWindow > 0
    ensures var a, o := FindAnchor(cfg, src, k, db, l), Tick(cfg, src, k, db, l);
      && (o.error.None? ==>
            var from := if db.commitments == map[] then a.deploy else db.cursor + 1;
            o.db.gap == (db.gap && l.latest.value - cfg.confirmations < from))
      && (o.error.Some? ==> (o.db.gap <==> db.gap || o.rewinds > 0))
      && (o.error.Some? && o.error.value.GapUnresolved? ==> o.rewinds == cfg.maxRescan)
  {
    hide Rescan, WalkBack;
    EmptyIffNextZero(db);
    var a := FindAnchor(cfg, src, k, db, l);
    if l.latestForDeploy.Some? {
      WalkErrors(cfg, src, k, WalkStart(cfg, l.latestForDeploy.value), l.latestForDeploy.value);
    }
    if a.Anchored? && l.latest.Some? {
      var from, safe := StartOf(a.db, a.deploy), l.latest.value - cfg.confirmations;
      if from <= safe {
        RescanFlag(cfg, src, a.k, a.db, a.deploy, from, safe, 0, 0);
      }
    }
  }

  lemma {:induction false} ScanFlag(cfg: Config, src: Source, k: nat, db: Tables, deploy: int, from: int, safe: int,
                                    rewinds: nat)
    requires cfg.scanWindow > 0 && rewinds <= cfg.maxRescan
    ensures var s := ScanLoop(cfg, src, k, db, deploy, from, safe, rewinds);
      && (s.end.Complete? ==> !s.db.gap)
      && (s.end.Stopped? && s.end.error.GapUnresolved? ==> s.rewinds == cfg.maxRescan)
    decreases cfg.maxRescan - rewinds
  {
    hide IngestRange;
    PassErrors(cfg, src, k, db, from, safe);
    var p := IngestRange(cfg, src, k, db, from, safe);
    if p.result.GapAt? && p.result.expected > 0 && rewinds + 1 <= cfg.maxRescan {
      var db' := p.db.(gap := true);
      ScanFlag(cfg, src, p.k, db', deploy, RewindTarget(db', deploy, p.result.expected), safe, rewinds + 1);
    }
  }

  /** The twin raises the flag whenever a tick fails or re-anchors, and lowers it after a scan that ended well. */
  lemma TwinFlag(cfg: Config, src: Source, k: nat, db: Tables, l: TwinLedgers)
    requires cfg.scanWindow > 0
    ensures var o := TwinTick(cfg, src, k, db, l);
      var a := FindAnchor(OneWindow(cfg), src, k, db, Ledgers(l.latestForDeploy, l.code, l.latest));
      && (o.error.Some? || o.reanchored ==> o.db.gap)
      && (o.error.None? && !o.reanchored ==>
            && a.Anchored? && l.latest.Some?
            && var from := if db.commitments == map[] then a.deploy else db.cursor + 1;
            o.db.gap == (db.gap && l.latest.value - cfg.confirmations < from))
  {
    hide ScanLoop, WalkBack;
    EmptyIffNextZero(db);
    var a := FindAnchor(OneWindow(cfg), src, k, db, Ledgers(l.latestForDeploy, l.code, l.latest));
    if a.Anchored? && l.latest.Some? {
      var from, safe := StartOf(a.db, a.deploy), l.latest.value - cfg.confirmations;
      if from <= safe {
        ScanFlag(cfg, src, a.k, a.db, a.deploy, from, safe, 0);
      }
    }
  }
}
