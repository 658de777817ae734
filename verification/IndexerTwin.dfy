/** The TypeScript indexer's tick. It reads windows in pages, and on a gap at leaf 0 it gives the tick up,
    re-discovers the deploy ledger and lets the next tick start over. */
module IndexerTwin {
  import opened Basics
  import opened IndexerDb
  import opened IndexerSafety
  import opened Indexer
  import opened IndexerHealing
  import opened IndexerPaging
  import opened IndexerBounds

  datatype ScanEnd = Complete | NoLeafZero | Stopped(error: Error)
  datatype Scanned = Scanned(db: Tables, k: nat, end: ScanEnd, rewinds: nat)

  /** The tick's loop: passes and bounded rewinds, up to a complete pass, an error, or a gap at leaf 0. */
  ghost function ScanLoop(cfg: Config, src: Source, k: nat, db: Tables, deploy: int, from: int, safe: int,
                          rewinds: nat): Scanned
    requires cfg.scanWindow > 0 && rewinds <= cfg.maxRescan
    decreases cfg.maxRescan - rewinds
  {
    var p := IngestRange(cfg, src, k, db, from, safe);
    match p.result
    case Failed(e) => Scanned(p.db, p.k, Stopped(e), rewinds)
    case Done => Scanned(p.db.(gap := false), p.k, Complete, rewinds)
    case GapAt(expected) =>
      if expected == 0 then Scanned(p.db, p.k, NoLeafZero, rewinds)
      else if rewinds + 1 > cfg.maxRescan then Scanned(p.db, p.k, Stopped(GapUnresolved(expected)), rewinds)
      else
        var db' := p.db.(gap := true);
        ScanLoop(cfg, src, p.k, db', deploy, RewindTarget(db', deploy, expected), safe, rewinds + 1)
  }

  /** The walk-back reads its whole range as one window. */
  function OneWindow(cfg: Config): Config {
    cfg.(scanWindow := cfg.retention + 1)
  }

  /** Answers of the ledger queries of one tick; the last one is asked only to re-discover. */
  datatype TwinLedgers = TwinLedgers(latestForDeploy: Option<int>, code: Option<int>, latest: Option<int>,
                                     latestAgain: Option<int>)

  datatype TwinOutcome = TwinOutcome(db: Tables, k: nat, error: Option<Error>, reanchored: bool, rewinds: nat)

  function Rediscover(cfg: Config, src: Source, k: nat, db: Tables, latest: Option<int>, rewinds: nat): TwinOutcome {
    if latest.None? then TwinOutcome(db, k, Some(Rpc), false, rewinds)
    else
      match WalkBack(OneWindow(cfg), src, k, WalkStart(cfg, latest.value), latest.value)
      case WalkFailed(e, k') => TwinOutcome(db, k', Some(e), false, rewinds)
      case Found(l, k') => TwinOutcome(db.(deploy := Some(l)), k', None, true, rewinds)
  }

  ghost function TwinTick(cfg: Config, src: Source, k: nat, db: Tables, l: TwinLedgers): TwinOutcome
    requires cfg.scanWindow > 0
  {
    match FindAnchor(OneWindow(cfg), src, k, db, Ledgers(l.latestForDeploy, l.code, l.latest))
    case Unanchored(e, k') => TwinOutcome(db.(gap := true), k', Some(e), false, 0)
    case Anchored(db', deploy, k') =>
      if l.latest.None? then TwinOutcome(db'.(gap := true), k', Some(Rpc), false, 0)
      else
        var safe := l.latest.value - cfg.confirmations;
        var from := StartOf(db', deploy);
        if from > safe then TwinOutcome(db', k', None, false, 0)
        else
          var s := ScanLoop(cfg, src, k', db', deploy, from, safe, 0);
          match s.end
          case Complete => TwinOutcome(s.db, s.k, None, false, s.rewinds)
          case Stopped(e) => TwinOutcome(s.db.(gap := true), s.k, Some(e), false, s.rewinds)
          case NoLeafZero => Rediscover(cfg, src, s.k, s.db.(gap := true), l.latestAgain, s.rewinds)
  }

  // ----- the code

  class TwinNode {
    const cfg: Config
    const pg: Pager
    const db: Db
    var k: nat

    constructor (cfg: Config, pg: Pager, db: Db)
      ensures this.cfg == cfg && this.pg == pg && this.db == db && k == 0
    {
      this.cfg, this.pg, this.db, k := cfg, pg, db, 0;
    }

    ghost function Limits(): Config {
      Unlimited(cfg, pg)
    }

    method Window(from: int, to: int) returns (f: Answer)
      requires Bounded(pg)
      modifies this`k
      ensures f == FetchRange(Limits(), AsSource(pg), old(k), from, to) && k == old(k) + 1
    {
      PagedFetchIsFetch(cfg, pg, k, from, to);
      f := FetchWindow(pg, k, from, to);
      PagedErrors(pg, k, from, to);
      k := k + 1;
    }

    method WalkBackOnce(latest: int) returns (w: Walk)
      requires Bounded(pg)
      modifies this`k
      ensures w == WalkBack(OneWindow(Limits()), AsSource(pg), old(k), WalkStart(cfg, latest), latest) && k == w.k
    {
      hide FetchRange;
      var from := Max(1, latest - cfg.retention);
      if from > latest {
        return WalkFailed(LeafZeroNotFound, k);
      }
      ghost var k0 := k;
      var f := Window(from, latest);
      SameFetch(Limits(), OneWindow(Limits()), AsSource(pg), k0, from, latest);
      if f.FetchFailed? {
        return WalkFailed(f.error, k);
      }
      for i := 0 to |f.events|
        invariant LeafZeroLedger(f.events[i..]) == LeafZeroLedger(f.events)
      {
        assert f.events[i..][0] == f.events[i] && f.events[i..][1..] == f.events[i + 1..];
        if f.events[i].Commitment? && f.events[i].index == 0 {
          return Found(f.events[i].ledger, k);
        }
      }
      return WalkFailed(LeafZeroNotFound, k);
    }

    method Ingest(from: int, safe: int) returns (r: Ingested)
      requires cfg.scanWindow > 0 && Bounded(pg)
      modifies this`k, db
      ensures Pass(db.Abs(), k, r) == IngestRange(Limits(), AsSource(pg), old(k), old(db.Abs()), from, safe)
    {
      hide BatchStep, FetchRange, AsSource, Bounded;
      var windowFrom := from;
      while windowFrom <= safe
        invariant IngestRange(Limits(), AsSource(pg), k, db.Abs(), windowFrom, safe)
               == IngestRange(Limits(), AsSource(pg), old(k), old(db.Abs()), from, safe)
        decreases safe - windowFrom + 1
      {
        var windowTo := Min(windowFrom + cfg.scanWindow - 1, safe);
        var f := Window(windowFrom, windowTo);
        if f.FetchFailed? {
          return Failed(f.error);
        }
        if f.oldest > 0 && windowFrom < f.oldest {
          return Failed(Retention);
        }
        var res := db.ApplyBatch(f.events, windowTo);
        match res {
          case Gap(expected) => return GapAt(expected);
          case DuplicateValue => return Failed(Database);
          case Applied => windowFrom := windowTo + 1;
        }
      }
      return Done;
    }

    method Passes(deploy: int, from0: int, safe: int) returns (end: ScanEnd, ghost rewinds: nat)
      requires cfg.scanWindow > 0 && Bounded(pg)
      modifies this`k, db
      ensures Scanned(db.Abs(), k, end, rewinds)
           == ScanLoop(Limits(), AsSource(pg), old(k), old(db.Abs()), deploy, from0, safe, 0)
    {
      hide IngestRange, AsSource, Bounded;
      var from, attempts := from0, 0;
      rewinds := 0;
      while true
        invariant attempts == rewinds <= cfg.maxRescan
        invariant ScanLoop(Limits(), AsSource(pg), k, db.Abs(), deploy, from, safe, rewinds)
               == ScanLoop(Limits(), AsSource(pg), old(k), old(db.Abs()), deploy, from0, safe, 0)
        decreases cfg.maxRescan - attempts
      {
        var res := Ingest(from, safe);
        if res.Failed? {
          return Stopped(res.error), rewinds;
        }
        if res.Done? {
          db.SetGapState(false);
          return Complete, rewinds;
        }
        if res.expected == 0 {
          return NoLeafZero, rewinds;
        }
        attempts := attempts + 1;
        if attempts > cfg.maxRescan {
          return Stopped(GapUnresolved(res.expected)), rewinds;
        }
        rewinds := rewinds + 1;
        db.SetGapState(true);
        var rewind := LedgerOfLeaf(db.Abs(), res.expected - 1);
        from := if rewind.None? || rewind.value < deploy then deploy else rewind.value;
      }
    }

    /** The stored deploy ledger, the code entry's, or the one a walk-back finds. */
    method EnsureAnchor(l: TwinLedgers) returns (error: Option<Error>, deploy: int)
      requires Bounded(pg)
      modifies this`k, db
      ensures match FindAnchor(OneWindow(Limits()), AsSource(pg), old(k), old(db.Abs()),
                               Ledgers(l.latestForDeploy, l.code, l.latest))
        case Unanchored(e, k') => error == Some(e) && k == k' && db.Abs() == old(db.Abs())
        case Anchored(db', d, k') => error == None && deploy == d && k == k' && db.Abs() == db'
    {
      hide AsSource, WalkBack;
      if db.deploy.Some? {
        return None, db.deploy.value;
      }
      if l.latestForDeploy.None? {
        return Some(Rpc), 0;
      }
      if l.code.Some? {
        db.SetDeployLedger(l.code.value);
        return None, l.code.value;
      }
      var w := WalkBackOnce(l.latestForDeploy.value);
      if w.WalkFailed? {
        return Some(w.error), 0;
      }
      db.SetDeployLedger(w.ledger);
      return None, w.ledger;
    }

    /** Walks back for leaf 0 after a gap at leaf 0, and leaves the rest to the next tick. */
    method RediscoverDeploy(latest: Option<int>) returns (error: Option<Error>, ghost reanchored: bool)
      requires Bounded(pg)
      modifies this`k, db
      ensures forall rewinds :: TwinOutcome(db.Abs(), k, error, reanchored, rewinds)
                             == Rediscover(Limits(), AsSource(pg), old(k), old(db.Abs()), latest, rewinds)
    {
      hide AsSource, WalkBack;
      if latest.None? {
        return Some(Rpc), false;
      }
      var w := WalkBackOnce(latest.value);
      if w.WalkFailed? {
        return Some(w.error), false;
      }
      db.SetDeployLedger(w.ledger);
      return None, true;
    }

    method RunTick(l: TwinLedgers) returns (error: Option<Error>, ghost reanchored: bool, ghost rewinds: nat)
      requires cfg.scanWindow > 0 && Bounded(pg)
      modifies this`k, db
      ensures TwinOutcome(db.Abs(), k, error, reanchored, rewinds)
              == TwinTick(Limits(), AsSource(pg), old(k), old(db.Abs()), l)
    {
      hide AsSource, ScanLoop, Rediscover, FindAnchor;
      reanchored, rewinds := false, 0;
      var anchorError, deploy := EnsureAnchor(l);
      if anchorError.Some? {
        db.SetGapState(true);
        return anchorError, false, 0;
      }
      if l.latest.None? {
        db.SetGapState(true);
        return Some(Rpc), false, 0;
      }
      var safe := l.latest.value - cfg.confirmations;
      var next := db.NextLeafIndex();
      var from := if next == 0 then deploy else db.cursor + 1;
      if from > safe {
        return None, false, 0;
      }
      var end;
      end, rewinds := Passes(deploy, from, safe);
      match end {
        case Complete => return None, false, rewinds;
        case Stopped(e) =>
          db.SetGapState(true);
          return Some(e), false, rewinds;
        case NoLeafZero =>
          db.SetGapState(true);
          error, reanchored := RediscoverDeploy(l.latestAgain);
      }
    }
  }

  // ----- what every tick keeps, whatever the source shows

  lemma {:induction false} ScanKeeps(c: Chain, cfg: Config, src: Source, k: nat, db: Tables, deploy: int, from: int,
                                     safe: int, rewinds: nat)
    requires cfg.scanWindow > 0 && rewinds <= cfg.maxRescan && Truthful(c, src) && LoopOk(c, db, deploy, from)
    ensures var s := ScanLoop(cfg, src, k, db, deploy, from, safe, rewinds);
      && DbOk(c, s.db) && s.db.deploy == db.deploy
      && NextLeaf(db.commitments) <= NextLeaf(s.db.commitments) && s.rewinds <= cfg.maxRescan
      && (s.end.NoLeafZero? ==> s.db.commitments == map[] && |c.leaves| > 0)
    decreases cfg.maxRescan - rewinds
  {
    hide IngestRange, Mirrors, Truthful;
    var p := IngestRange(cfg, src, k, db, from, safe);
    PassKeeps(c, cfg, src, k, db, from, safe);
    if p.result.Done? {
      DbOkOtherFlag(c, p.db, false);
    } else if p.result.GapAt? {
      AfterGap(c, cfg, src, k, db, deploy, from, safe);
      EmptyIffNextZero(p.db);
      if p.result.expected > 0 && rewinds + 1 <= cfg.maxRescan {
        var db' := p.db.(gap := true);
        ScanKeeps(c, cfg, src, p.k, db', deploy, RewindTarget(db', deploy, p.result.expected), safe, rewinds + 1);
      }
    }
  }

  /** A re-discovered deploy ledger is the ledger of leaf 0. */
  lemma RediscoverKeeps(c: Chain, cfg: Config, src: Source, k: nat, db: Tables, latest: Option<int>, rewinds: nat)
    requires Truthful(c, src) && DbOk(c, db)
    ensures var o := Rediscover(cfg, src, k, db, latest, rewinds);
      && DbOk(c, o.db) && o.db.commitments == db.commitments && o.db.nullifiers == db.nullifiers && o.rewinds == rewinds
      && (o.reanchored ==> |c.leaves| > 0 && o.db.deploy == Some(c.leaves[0].ledger))
  {
    hide WalkBack, Truthful;
    if latest.Some? {
      WalkBackTruthful(c, OneWindow(cfg), src, k, WalkStart(cfg, latest.value), latest.value);
    }
  }

  /** Over any truthful source a tick keeps the tables right and loses no leaf, and rewinds a bounded number of
      times. The flag records the walk-back after the loop: it leaves an empty table anchored at leaf 0. */
  lemma TwinKeeps(c: Chain, cfg: Config, src: Source, k: nat, db: Tables, l: TwinLedgers)
    requires cfg.scanWindow > 0 && Truthful(c, src) && DbOk(c, db)
    ensures var o := TwinTick(cfg, src, k, db, l);
      && DbOk(c, o.db) && NextLeaf(db.commitments) <= NextLeaf(o.db.commitments) && o.rewinds <= cfg.maxRescan
      && (o.reanchored ==> o.db.commitments == map[] && |c.leaves| > 0 && o.db.deploy == Some(c.leaves[0].ledger))
  {
    hide ScanLoop, Rediscover, WalkBack, Truthful, Mirrors;
    EmptyIffNextZero(db);
    var a := FindAnchor(OneWindow(cfg), src, k, db, Ledgers(l.latestForDeploy, l.code, l.latest));
    AnchorIsOk(c, OneWindow(cfg), src, k, db, Ledgers(l.latestForDeploy, l.code, l.latest));
    DbOkOtherFlag(c, db, true);
    if a.Anchored? {
      DbOkOtherFlag(c, a.db, true);
      if l.latest.Some? {
        var safe, from := l.latest.value - cfg.confirmations, StartOf(a.db, a.deploy);
        if from <= safe {
          ScanKeeps(c, cfg, src, a.k, a.db, a.deploy, from, safe, 0);
          var s := ScanLoop(cfg, src, a.k, a.db, a.deploy, from, safe, 0);
          DbOkOtherFlag(c, s.db, true);
          RediscoverKeeps(c, cfg, src, s.k, s.db.(gap := true), l.latestAgain, s.rewinds);
        }
      }
    }
  }

  // ----- healing

  lemma {:induction false} ScanKeepsClosed(c: Chain, cfg: Config, src: Source, k: nat, db: Tables, deploy: int,
                                           from: int, safe: int, rewinds: nat)
    requires cfg.scanWindow > 0 && rewinds <= cfg.maxRescan && Truthful(c, src) && LedgerWise(cfg, c, src)
    requires LoopOk(c, db, deploy, from) && Closed(ByLedger(), c, db)
    ensures Closed(ByLedger(), c, ScanLoop(cfg, src, k, db, deploy, from, safe, rewinds).db)
    decreases cfg.maxRescan - rewinds
  {
    hide IngestRange, Mirrors, Truthful, LedgerWise, Closed;
    var p := IngestRange(cfg, src, k, db, from, safe);
    PassKeepsClosed(c, cfg, src, k, db, from, safe);
    if p.result.Done? {
      ClosedSameTables(c, p.db, p.db.(gap := false));
    } else if p.result.GapAt? && p.result.expected > 0 && rewinds + 1 <= cfg.maxRescan {
      AfterGap(c, cfg, src, k, db, deploy, from, safe);
      var db' := p.db.(gap := true);
      ClosedSameTables(c, p.db, db');
      ScanKeepsClosed(c, cfg, src, p.k, db', deploy, RewindTarget(db', deploy, p.result.expected), safe, rewinds + 1);
    }
  }

  lemma TwinKeepsClosed(c: Chain, cfg: Config, src: Source, k: nat, db: Tables, l: TwinLedgers)
    requires cfg.scanWindow > 0 && Truthful(c, src) && LedgerWise(cfg, c, src) && DbOk(c, db)
             && Closed(ByLedger(), c, db)
    ensures Closed(ByLedger(), c, TwinTick(cfg, src, k, db, l).db)
  {
    hide ScanLoop, WalkBack, Truthful, LedgerWise, Closed, DbOk;
    AnchorIsOk(c, OneWindow(cfg), src, k, db, Ledgers(l.latestForDeploy, l.code, l.latest));
    var a := FindAnchor(OneWindow(cfg), src, k, db, Ledgers(l.latestForDeploy, l.code, l.latest));
    var o := TwinTick(cfg, src, k, db, l);
    if a.Anchored? && l.latest.Some? && StartOf(a.db, a.deploy) <= l.latest.value - cfg.confirmations {
      var safe, from := l.latest.value - cfg.confirmations, StartOf(a.db, a.deploy);
      ClosedSameTables(c, db, a.db);
      ScanKeepsClosed(c, cfg, src, a.k, a.db, a.deploy, from, safe, 0);
      ClosedSameTables(c, ScanLoop(cfg, src, a.k, a.db, a.deploy, from, safe, 0).db, o.db);
    } else {
      ClosedSameTables(c, db, o.db);
    }
  }

  /** Over a faithful source the loop sees no gap when nothing is missing before it. */
  lemma CleanScan(sc: Scope, c: Chain, cfg: Config, src: Source, k: nat, db: Tables, deploy: int, from: int,
                  safe: int, rewinds: nat)
    requires cfg.scanWindow > 0 && rewinds <= cfg.maxRescan && Faithful(cfg.pageLimit, c, src) && ValidChain(c)
             && Mirrors(c, db)
    requires StoredBefore(sc, c, db, from)
    ensures var s := ScanLoop(cfg, src, k, db, deploy, from, safe, rewinds);
      && !s.end.NoLeafZero? && s.rewinds == rewinds
      && (s.end.Complete? ==> StoredBefore(sc, c, s.db, safe + 1))
  {
    hide IngestRange, StoredBefore, Faithful;
    CleanPass(sc, c, cfg, src, k, db, from, safe);
    var p := IngestRange(cfg, src, k, db, from, safe);
    StoredOtherFlags(sc, c, p.db, p.db.(gap := false), safe + 1);
  }

  /** Over a faithful source a loop that completes has stored everything exactly when nothing was missing
      before its start or its range shows a leaf; it stops at leaf 0 only when leaf 0 is the one missing. */
  lemma ScanHeals(sc: Scope, c: Chain, cfg: Config, src: Source, k: nat, db: Tables, deploy: int, from: int, safe: int)
    requires cfg.scanWindow > 0 && cfg.maxRescan > 0 && Faithful(cfg.pageLimit, c, src) && ValidChain(c)
    requires LoopOk(c, db, deploy, from) && ClosedFor(sc, c, db) && from <= safe
    ensures var s := ScanLoop(cfg, src, k, db, deploy, from, safe, 0);
      && (s.end.Complete? ==>
            (StoredBefore(sc, c, s.db, safe + 1) <==> StoredBefore(sc, c, db, from) || LeafWithin(c, from, safe)))
      && (s.end.NoLeafZero? ==> NextLeaf(db.commitments) == 0 && LeafWithin(c, from, safe))
      && s.rewinds <= 1
  {
    hide IngestRange, StoredBefore, ClosedFor, Faithful, LeafWithin, RewindTarget;
    var p := IngestRange(cfg, src, k, db, from, safe);
    if StoredBefore(sc, c, db, from) {
      CleanScan(sc, c, cfg, src, k, db, deploy, from, safe, 0);
    } else {
      FirstMissingBefore(sc, c, db, from);
      LatePass(c, cfg, src, k, db, from, safe);
      if p.result.Done? {
        StoredOtherFlags(sc, c, db, p.db.(gap := false), safe + 1);
        LateMissing(sc, c, db, from, safe);
      } else if p.result.GapAt? && p.result.expected > 0 {
        ReturnIsEarlyEnough(sc, c, db, deploy);
        var db' := p.db.(gap := true);
        SameTarget(db, db', deploy, p.result.expected);
        StoredOtherFlags(sc, c, db, db', RewindTarget(db, deploy, p.result.expected));
        CleanScan(sc, c, cfg, src, p.k, db', deploy, RewindTarget(db', deploy, p.result.expected), safe, 1);
      }
    }
  }

  lemma SameTarget(db: Tables, db': Tables, deploy: int, expected: nat)
    requires db'.commitments == db.commitments
    ensures RewindTarget(db', deploy, expected) == RewindTarget(db, deploy, expected)
  {
  }

  /** The tables a tick can find. */
  ghost predicate Sane(sc: Scope, c: Chain, db: Tables) {
    DbOk(c, db) && ClosedFor(sc, c, db)
  }

  /** Healing in one tick: unless it re-anchored, a faithful tick that ends without an error leaves every
      true event up to `safe` stored exactly when none was missing before its start or its range shows a leaf. */
  lemma TwinHeals(sc: Scope, c: Chain, cfg: Config, src: Source, k: nat, db: Tables, l: TwinLedgers)
    requires cfg.scanWindow > 0 && cfg.maxRescan > 0 && Faithful(cfg.pageLimit, c, src) && ValidChain(c)
             && Sane(sc, c, db)
             && l.latest.Some?
    ensures var a := FindAnchor(OneWindow(cfg), src, k, db, Ledgers(l.latestForDeploy, l.code, l.latest));
      var o := TwinTick(cfg, src, k, db, l);
      a.Anchored? && o.error.None? && !o.reanchored ==>
        var from := if db.commitments == map[] then a.deploy else db.cursor + 1;
        var safe := l.latest.value - cfg.confirmations;
        from <= safe ==>
          (StoredBefore(sc, c, o.db, safe + 1) <==> StoredBefore(sc, c, db, from) || LeafWithin(c, from, safe))
  {
    hide StoredBefore, LeafWithin, Faithful, ClosedFor, ScanLoop, WalkBack, DbOk;
    EmptyIffNextZero(db);
    FaithfulIsTruthful(cfg.pageLimit, c, src);
    AnchorIsOk(c, OneWindow(cfg), src, k, db, Ledgers(l.latestForDeploy, l.code, l.latest));
    var a := FindAnchor(OneWindow(cfg), src, k, db, Ledgers(l.latestForDeploy, l.code, l.latest));
    if a.Anchored? {
      var from, safe := StartOf(a.db, a.deploy), l.latest.value - cfg.confirmations;
      ClosedForSameTables(sc, c, db, a.db);
      StoredOtherFlags(sc, c, db, a.db, from);
      if from <= safe {
        ScanHeals(sc, c, cfg, src, a.k, a.db, a.deploy, from, safe);
      }
    }
  }

  /** Healing over two ticks: once a tick has re-anchored, the next faithful one cannot re-anchor again, and
      if it ends without an error it has stored everything, whether or not its range shows a leaf. */
  lemma ReanchorHeals(sc: Scope, c: Chain, cfg: Config, db: Tables, src: Source, k: nat, l: TwinLedgers, src': Source,
                      k': nat, l': TwinLedgers)
    requires cfg.scanWindow > 0 && ValidChain(c) && DbOk(c, db)
    requires Truthful(c, src) && TwinTick(cfg, src, k, db, l).reanchored
    requires Faithful(cfg.pageLimit, c, src') && l'.latest.Some?
    ensures |c.leaves| > 0
    ensures var o := TwinTick(cfg, src', k', TwinTick(cfg, src, k, db, l).db, l');
      var safe := l'.latest.value - cfg.confirmations;
      && !o.reanchored
      && (o.error.None? && c.leaves[0].ledger <= safe ==> StoredBefore(sc, c, o.db, safe + 1))
  {
    TwinKeeps(c, cfg, src, k, db, l);
    hide StoredBefore, Faithful, ScanLoop, TwinTick, DbOk, Mirrors;
    var db1 := TwinTick(cfg, src, k, db, l).db;
    AnchoredTick(sc, c, cfg, db1, src', k', l');
  }

  lemma AnchoredTick(sc: Scope, c: Chain, cfg: Config, db: Tables, src: Source, k: nat, l: TwinLedgers)
    requires cfg.scanWindow > 0 && ValidChain(c) && DbOk(c, db) && Faithful(cfg.pageLimit, c, src) && l.latest.Some?
    requires db.commitments == map[] && |c.leaves| > 0 && db.deploy == Some(c.leaves[0].ledger)
    ensures var o := TwinTick(cfg, src, k, db, l);
      var safe := l.latest.value - cfg.confirmations;
      && !o.reanchored
      && (o.error.None? && c.leaves[0].ledger <= safe ==> StoredBefore(sc, c, o.db, safe + 1))
  {
    hide StoredBefore, Faithful, ScanLoop, WalkBack, Mirrors;
    EmptyIffNextZero(db);
    NothingBeforeLeafZero(sc, c, db);
    var deploy, safe := c.leaves[0].ledger, l.latest.value - cfg.confirmations;
    if deploy <= safe {
      CleanScan(sc, c, cfg, src, k, db, deploy, deploy, safe, 0);
    }
  }

  // ----- over any history

  /** One tick, with the configuration it ran under. */
  datatype TwinInput = TwinInput(cfg: Config, src: Source, k: nat, ledgers: TwinLedgers)

  ghost predicate Ran(sc: Scope, c: Chain, ticks: seq<TwinInput>) {
    forall t :: t in ticks ==> t.cfg.scanWindow > 0 && Shown(sc, t.cfg, c, t.src)
  }

  ghost function AfterTwinTicks(ticks: seq<TwinInput>): Tables
    requires forall t :: t in ticks ==> t.cfg.scanWindow > 0
  {
    if ticks == [] then EMPTY
    else
      var t := ticks[|ticks| - 1];
      TwinTick(t.cfg, t.src, t.k, AfterTwinTicks(ticks[..|ticks| - 1]), t.ledgers).db
  }

  /** Whatever ticks ran before, over sources that hid events, failed, or were cut off, the tables are in
      order, so the two healing lemmas apply to the next tick. */
  lemma {:induction false} TwinTicksKeep(sc: Scope, c: Chain, ticks: seq<TwinInput>)
    requires Ran(sc, c, ticks)
    ensures Sane(sc, c, AfterTwinTicks(ticks))
  {
    hide TwinTick, DbOk, Closed, Truthful, LedgerWise;
    if ticks == [] {
      EmptyDbOk(sc, c);
    } else {
      var front, t := ticks[..|ticks| - 1], ticks[|ticks| - 1];
      assert ticks == front + [t];
      assert t in ticks;
      TwinTicksKeep(sc, c, front);
      TwinKeeps(c, t.cfg, t.src, t.k, AfterTwinTicks(front), t.ledgers);
      if sc.Everything? {
        TwinKeepsClosed(c, t.cfg, t.src, t.k, AfterTwinTicks(front), t.ledgers);
      }
    }
  }

  // ----- success

  /** Over a faithful, available source with distinct commitments the loop is not stopped by an error. */
  lemma ScanSucceeds(c: Chain, cfg: Config, src: Source, k: nat, db: Tables, deploy: int, from: int, safe: int,
                     floor: int)
    requires cfg.scanWindow > 0 && cfg.maxRescan > 0 && Faithful(cfg.pageLimit, c, src) && Available(cfg, src, floor)
             && ValidChain(c)
    requires LoopOk(c, db, deploy, from) && DistinctUpTo(c, safe)
    requires floor <= from <= safe && floor <= ReturnLedger(c, db)
    requires k + 2 * (safe - floor + 1) <= src.calls
    ensures var s := ScanLoop(cfg, src, k, db, deploy, from, safe, 0);
      !s.end.Stopped? && s.k <= k + 2 * (safe - floor + 1)
  {
    hide IngestRange, StoredBefore, ClosedFor, Faithful, Truthful, Available, DistinctUpTo, LeafWithin, RewindTarget;
    FaithfulIsTruthful(cfg.pageLimit, c, src);
    PassSucceeds(c, cfg, src, k, db, from, safe, floor);
    var p := IngestRange(cfg, src, k, db, from, safe);
    if StoredBefore(LeavesOnly, c, db, from) {
      CleanPass(LeavesOnly, c, cfg, src, k, db, from, safe);
    } else {
      FirstMissingBefore(LeavesOnly, c, db, from);
      LatePass(c, cfg, src, k, db, from, safe);
      if p.result.GapAt? && p.result.expected > 0 {
        ReturnIsEarlyEnough(LeavesOnly, c, db, deploy);
        var db' := p.db.(gap := true);
        var target := RewindTarget(db, deploy, p.result.expected);
        SameTarget(db, db', deploy, p.result.expected);
        ReturnIsReturnLedger(c, db, deploy);
        StoredOtherFlags(LeavesOnly, c, db, db', target);
        CleanPass(LeavesOnly, c, cfg, src, p.k, db', target, safe);
        PassSucceeds(c, cfg, src, p.k, db', target, safe, floor);
      }
    }
  }

  lemma ReturnIsReturnLedger(c: Chain, db: Tables, deploy: int)
    requires ValidChain(c) && DbOk(c, db) && db.deploy == Some(deploy) && NextLeaf(db.commitments) > 0
    ensures RewindTarget(db, deploy, NextLeaf(db.commitments)) == ReturnLedger(c, db)
  {
    EmptyIffNextZero(db);
  }

  /** A tick after such a history that is anchored, has a range to scan, and finds calls and retention enough
      for two sweeps and a walk-back. */
  ghost predicate Equipped(c: Chain, cfg: Config, ticks: seq<TwinInput>, src: Source, k: nat, l: TwinLedgers,
                           floor: int)
    requires cfg.scanWindow > 0 && forall t :: t in ticks ==> t.cfg.scanWindow > 0
  {
    && l.latest.Some? && l.latestAgain.Some?
    && var db, again := AfterTwinTicks(ticks), l.latestAgain.value;
    var a := FindAnchor(OneWindow(cfg), src, k, db, Ledgers(l.latestForDeploy, l.code, l.latest));
    var safe := l.latest.value - cfg.confirmations;
    && a.Anchored? && floor <= (if db.commitments == map[] then a.deploy else db.cursor + 1) <= safe
    && NextLeaf(db.commitments) <= |c.leaves| && floor <= ReturnLedger(c, db)
    && a.k + 2 * (safe - floor + 1) + (again - floor + 1) <= src.calls
    && floor <= Max(1, again - cfg.retention) && floor <= again
    && (|c.leaves| > 0 ==> Max(1, again - cfg.retention) <= c.leaves[0].ledger <= again)
  }

  /** The tick ended without an error, either re-anchored at leaf 0, so that the next tick heals, or with
      everything in scope up to `safe` stored under the usual condition. */
  ghost predicate WentWell(sc: Scope, c: Chain, cfg: Config, ticks: seq<TwinInput>, src: Source, k: nat, l: TwinLedgers)
    requires cfg.scanWindow > 0 && l.latest.Some? && forall t :: t in ticks ==> t.cfg.scanWindow > 0
  {
    var db := AfterTwinTicks(ticks);
    var a := FindAnchor(OneWindow(cfg), src, k, db, Ledgers(l.latestForDeploy, l.code, l.latest));
    var o, safe := TwinTick(cfg, src, k, db, l), l.latest.value - cfg.confirmations;
    && a.Anchored? && o.error.None?
    && var from := if db.commitments == map[] then a.deploy else db.cursor + 1;
    (!o.reanchored ==>
       (StoredBefore(sc, c, o.db, safe + 1) <==> StoredBefore(sc, c, db, from) || LeafWithin(c, from, safe)))
  }

  /** Success of a tick after any history, over a faithful, available source with distinct commitments. */
  lemma TwinSucceeds(sc: Scope, c: Chain, cfg: Config, ticks: seq<TwinInput>, src: Source, k: nat, l: TwinLedgers,
                     floor: int)
    requires cfg.scanWindow > 0 && cfg.maxRescan > 0 && ValidChain(c) && Ran(sc, c, ticks)
    requires Faithful(cfg.pageLimit, c, src) && Available(cfg, src, floor) && Equipped(c, cfg, ticks, src, k, l, floor)
    requires DistinctUpTo(c, l.latest.value - cfg.confirmations)
    ensures WentWell(sc, c, cfg, ticks, src, k, l)
  {
    hide StoredBefore, LeafWithin, Faithful, Truthful, ClosedFor, ScanLoop, AfterTwinTicks, Available, DistinctUpTo,
         WalkBack, DbOk;
    var db := AfterTwinTicks(ticks);
    EmptyIffNextZero(db);
    TwinTicksKeep(sc, c, ticks);
    TwinHeals(sc, c, cfg, src, k, db, l);
    var ls := Ledgers(l.latestForDeploy, l.code, l.latest);
    AnchorIsOk(c, OneWindow(cfg), src, k, db, ls);
    var a := FindAnchor(OneWindow(cfg), src, k, db, ls);
    var from, safe, again := StartOf(a.db, a.deploy), l.latest.value - cfg.confirmations, l.latestAgain.value;
    ScanSucceeds(c, cfg, src, a.k, a.db, a.deploy, from, safe, floor);
    FaithfulIsTruthful(cfg.pageLimit, c, src);
    ScanKeeps(c, cfg, src, a.k, a.db, a.deploy, from, safe, 0);
    var s := ScanLoop(cfg, src, a.k, a.db, a.deploy, from, safe, 0);
    if s.end.NoLeafZero? {
      AvailableOneWindow(cfg, src, floor);
      WalkBackSucceeds(c, OneWindow(cfg), src, s.k, WalkStart(cfg, again), again, floor);
    }
  }

  /** The same for the source the process really reads: a pager that lists every true event of a window in pages
      that make progress, decode and are within retention. */
  lemma PagedTwinSucceeds(sc: Scope, c: Chain, cfg: Config, ticks: seq<TwinInput>, pg: Pager, k: nat, l: TwinLedgers,
                          floor: int)
    requires cfg.scanWindow > 0 && cfg.maxRescan > 0 && ValidChain(c) && Ran(sc, c, ticks)
    requires Bounded(pg) && FaithfulPager(c, pg) && Serves(pg, floor)
    requires Equipped(c, Unlimited(cfg, pg), ticks, AsSource(pg), k, l, floor)
    requires DistinctUpTo(c, l.latest.value - cfg.confirmations)
    ensures WentWell(sc, c, Unlimited(cfg, pg), ticks, AsSource(pg), k, l)
  {
    hide WentWell, AsSource, Equipped, Ran, DistinctUpTo, Bounded, FaithfulPager, Serves, Available, Faithful;
    PagerFaithful(c, pg, Unlimited(cfg, pg).pageLimit);
    PagerAvailable(cfg, pg, floor);
    TwinSucceeds(sc, c, Unlimited(cfg, pg), ticks, AsSource(pg), k, l, floor);
  }

  lemma AvailableOneWindow(cfg: Config, src: Source, floor: int)
    requires Available(cfg, src, floor)
    ensures Available(OneWindow(cfg), src, floor)
  {
    forall k: nat, from: int, to: int | k < src.calls && floor <= from
      ensures GoodAnswer(floor, FetchRange(OneWindow(cfg), src, k, from, to))
    {
      SameFetch(cfg, OneWindow(cfg), src, k, from, to);
      AvailableAt(cfg, src, floor, k, from, to);
    }
  }

  lemma PagedErrors(pg: Pager, k: nat, from: int, to: int)
    ensures var f := PagedFetch(pg, k, from, to);
      f.FetchFailed? ==> f.error == Retention || f.error == Rpc
  {
    PagesErrors(pg, k, from, to, None, pg.pages, {}, []);
  }

  lemma {:induction false} PagesErrors(pg: Pager, k: nat, from: int, to: int, cursor: Option<nat>, left: nat,
                                       seen: set<nat>, events: seq<Event>)
    ensures var f := Pages(pg, k, from, to, cursor, left, seen, events);
      f.FetchFailed? ==> f.error == Retention || f.error == Rpc
    decreases left
  {
    if left > 0 {
      var r := pg.page(k, from, to, cursor);
      if r.Entries? {
        var s := ScanPage(r.entries, to, seen, events);
        if s.Scan? {
          PagesErrors(pg, k, from, to, Some(r.cursor), left - 1, s.seen, s.events);
        }
      }
    }
  }

  lemma SameFetch(cfg: Config, cfg': Config, src: Source, k: nat, from: int, to: int)
    requires cfg.pageLimit == cfg'.pageLimit
    ensures FetchRange(cfg, src, k, from, to) == FetchRange(cfg', src, k, from, to)
  {
  }
}
