/** The indexer's tick: windowed fetches from an unreliable event source, gap detection, rewind and
    re-anchoring. Each loop of the code is a method proved against the function that specifies it. */
module Indexer {
  import opened Basics
  import opened IndexerDb

  datatype Config = Config(scanWindow: nat, pageLimit: nat, retention: nat, maxRescan: nat, confirmations: int)

  /** The deployed constants, with one confirmation. */
  const DEPLOYED := Config(10_000, 10_000, 110_000, 5, 1)

  /** One entry of an event page: a vault event, an event of another kind, or one that does not decode. */
  datatype Raw = Known(event: Event) | Other(otherLedger: nat) | Broken(brokenLedger: nat)

  function LedgerOf(r: Raw): nat {
    match r
    case Known(e) => e.ledger
    case Other(l) => l
    case Broken(l) => l
  }

  datatype Response = Page(raws: seq<Raw>, oldest: int) | RetentionRefused | RpcFailed

  /** The event source. It may answer each call differently; after `calls` calls the context is
      cancelled and every further call fails. */
  datatype Source = Source(respond: (nat, int, int) -> Response, calls: nat)

  datatype Error = Retention | Rpc | PageLimit | Undecodable | LeafZeroNotFound | GapUnresolved(expected: nat)
      | Database

  datatype Answer = Fetched(events: seq<Event>, oldest: int) | FetchFailed(error: Error)

  function Decode(raws: seq<Raw>, to: int): Option<seq<Event>> {
    if raws == [] then Some([])
    else
      var front, r := Decode(raws[..|raws| - 1], to), raws[|raws| - 1];
      if front.None? || LedgerOf(r) > to then front
      else
        match r
        case Known(e) => Some(front.value + [e])
        case Other(_) => front
        case Broken(_) => None
  }

  function FetchRange(cfg: Config, src: Source, k: nat, from: int, to: int): Answer {
    if k >= src.calls then FetchFailed(Rpc)
    else
      match src.respond(k, from, to)
      case RetentionRefused => FetchFailed(Retention)
      case RpcFailed => FetchFailed(Rpc)
      case Page(raws, oldest) =>
        if |raws| >= cfg.pageLimit then FetchFailed(PageLimit)
        else
          var d := Decode(raws, to);
          if d.None? then FetchFailed(Undecodable) else Fetched(d.value, oldest)
  }

  function LeafZeroLedger(events: seq<Event>): Option<nat> {
    if events == [] then None
    else if events[0].Commitment? && events[0].index == 0 then Some(events[0].ledger)
    else LeafZeroLedger(events[1..])
  }

  function WindowEnd(cfg: Config, from: int, last: int): int {
    Min(from + cfg.scanWindow - 1, last)
  }

  datatype Walk = Found(ledger: nat, k: nat) | WalkFailed(error: Error, k: nat)

  /** Looks for leaf 0, window by window. */
  function WalkBack(cfg: Config, src: Source, k: nat, from: int, last: int): (w: Walk)
    requires cfg.scanWindow > 0
    ensures k <= w.k
    decreases last - from + 1
  {
    if from > last then WalkFailed(LeafZeroNotFound, k)
    else
      var to := WindowEnd(cfg, from, last);
      match FetchRange(cfg, src, k, from, to)
      case FetchFailed(e) => WalkFailed(e, k + 1)
      case Fetched(events, _) =>
        var l := LeafZeroLedger(events);
        if l.Some? then Found(l.value, k + 1) else WalkBack(cfg, src, k + 1, to + 1, last)
  }

  function WalkStart(cfg: Config, latest: int): int {
    Max(1, latest - cfg.retention)
  }

  datatype Ingested = Done | GapAt(expected: nat) | Failed(error: Error)
  datatype Pass = Pass(db: Tables, k: nat, result: Ingested)

  /** One pass over [from, safe]: fetch and apply window by window, stopping at the first problem. */
  ghost function IngestRange(cfg: Config, src: Source, k: nat, db: Tables, from: int, safe: int): (p: Pass)
    requires cfg.scanWindow > 0
    ensures k <= p.k
    ensures p.result.GapAt? ==> k < p.k <= src.calls
    decreases safe - from + 1
  {
    if from > safe then Pass(db, k, Done)
    else
      var to := WindowEnd(cfg, from, safe);
      match FetchRange(cfg, src, k, from, to)
      case FetchFailed(e) => Pass(db, k + 1, Failed(e))
      case Fetched(events, oldest) =>
        if oldest > 0 && from < oldest then Pass(db, k + 1, Failed(Retention))
        else
          var (db', r) := BatchStep(db, events, to);
          match r
          case Gap(e) => Pass(db', k + 1, GapAt(e))
          case DuplicateValue => Pass(db', k + 1, Failed(Database))
          case Applied => IngestRange(cfg, src, k + 1, db', to + 1, safe)
  }

  datatype Outcome = Outcome(db: Tables, k: nat, error: Option<Error>, reanchors: nat, rewinds: nat)

  function RewindTarget(db: Tables, deploy: int, expected: nat): int {
    match LedgerOfLeaf(db, expected - 1)
    case None => deploy
    case Some(l) => Max(l, deploy)
  }

  /** The tick's loop: passes until one ends without a gap. A gap at leaf 0 re-anchors the deploy ledger;
      any other gap rewinds, a bounded number of times. */
  ghost function Rescan(cfg: Config, src: Source, k: nat, db: Tables, deploy: int, from: int, safe: int,
                        reanchors: nat, rewinds: nat): (o: Outcome)
    requires cfg.scanWindow > 0 && rewinds <= cfg.maxRescan
    ensures k <= o.k
    decreases src.calls - k
  {
    var p := IngestRange(cfg, src, k, db, from, safe);
    match p.result
    case Failed(e) => Outcome(p.db, p.k, Some(e), reanchors, rewinds)
    case Done => Outcome(p.db.(gap := false), p.k, None, reanchors, rewinds)
    case GapAt(expected) =>
      if expected == 0 then
        match WalkBack(cfg, src, p.k, WalkStart(cfg, safe), safe)
        case WalkFailed(e, k') => Outcome(p.db, k', Some(e), reanchors, rewinds)
        case Found(l, k') =>
          Rescan(cfg, src, k', p.db.(deploy := Some(l)), l, l, safe, reanchors + 1, rewinds)
      else if rewinds + 1 > cfg.maxRescan then
        Outcome(p.db, p.k, Some(GapUnresolved(expected)), reanchors, rewinds)
      else
        var db' := p.db.(gap := true);
        Rescan(cfg, src, p.k, db', deploy, RewindTarget(db', deploy, expected), safe, reanchors, rewinds + 1)
  }

  /** Answers of the ledger queries of one tick, each of which may fail. */
  datatype Ledgers = Ledgers(latestForDeploy: Option<int>, instance: Option<int>, latest: Option<int>)

  /** Where a tick starts: the whole range on an empty table, else past the cursor. */
  ghost function StartOf(db: Tables, deploy: int): int {
    if NextLeaf(db.commitments) == 0 then deploy else db.cursor + 1
  }

  datatype Anchor = Anchored(db: Tables, deploy: int, k: nat) | Unanchored(error: Error, k: nat)

  /** The stored deploy ledger, or one discovered and stored now. */
  function FindAnchor(cfg: Config, src: Source, k: nat, db: Tables, l: Ledgers): Anchor
    requires cfg.scanWindow > 0
  {
    if db.deploy.Some? then Anchored(db, db.deploy.value, k)
    else if l.latestForDeploy.None? then Unanchored(Rpc, k)
    else if l.instance.Some? then Anchored(db.(deploy := Some(l.instance.value)), l.instance.value, k)
    else
      match WalkBack(cfg, src, k, WalkStart(cfg, l.latestForDeploy.value), l.latestForDeploy.value)
      case WalkFailed(e, k') => Unanchored(e, k')
      case Found(d, k') => Anchored(db.(deploy := Some(d)), d, k')
  }

  ghost function Tick(cfg: Config, src: Source, k: nat, db: Tables, l: Ledgers): Outcome
    requires cfg.scanWindow > 0
  {
    match FindAnchor(cfg, src, k, db, l)
    case Unanchored(e, k') => Outcome(db, k', Some(e), 0, 0)
    case Anchored(db', deploy, k') =>
      if l.latest.None? then Outcome(db', k', Some(Rpc), 0, 0)
      else
        var safe := l.latest.value - cfg.confirmations;
        var from := StartOf(db', deploy);
        if from > safe then Outcome(db', k', None, 0, 0)
        else Rescan(cfg, src, k', db', deploy, from, safe, 0, 0)
  }

  // ----- the code

  class Node {
    const cfg: Config
    const src: Source
    const db: Db
    var k: nat

    constructor (cfg: Config, src: Source, db: Db)
      ensures this.cfg == cfg && this.src == src && this.db == db && k == 0
    {
      this.cfg, this.src, this.db, k := cfg, src, db, 0;
    }

    method DecodePage(raws: seq<Raw>, to: int) returns (out: Option<seq<Event>>)
      ensures out == Decode(raws, to)
    {
      var events: seq<Event> := [];
      for i := 0 to |raws|
        invariant Decode(raws[..i], to) == Some(events)
      {
        assert raws[..i + 1][..i] == raws[..i];
        if LedgerOf(raws[i]) > to {
          continue;
        }
        match raws[i] {
          case Known(e) => events := events + [e];
          case Other(_) =>
          case Broken(_) =>
            DecodeBroken(raws, i, to);
            return None;
        }
      }
      assert raws[..|raws|] == raws;
      return Some(events);
    }

    method Fetch(from: int, to: int) returns (f: Answer)
      modifies this`k
      ensures f == FetchRange(cfg, src, old(k), from, to) && k == old(k) + 1
    {
      var call := k;
      k := k + 1;
      if call >= src.calls {
        return FetchFailed(Rpc);
      }
      match src.respond(call, from, to) {
        case RetentionRefused => return FetchFailed(Retention);
        case RpcFailed => return FetchFailed(Rpc);
        case Page(raws, oldest) =>
          if |raws| >= cfg.pageLimit {
            return FetchFailed(PageLimit);
          }
          var d := DecodePage(raws, to);
          if d.None? {
            return FetchFailed(Undecodable);
          }
          return Fetched(d.value, oldest);
      }
    }

    /** First ledger carrying leaf 0 among the fetched events. */
    method FindLeafZero(events: seq<Event>) returns (l: Option<nat>)
      ensures l == LeafZeroLedger(events)
    {
      for i := 0 to |events|
        invariant LeafZeroLedger(events[i..]) == LeafZeroLedger(events)
      {
        assert events[i..][0] == events[i] && events[i..][1..] == events[i + 1..];
        if events[i].Commitment? && events[i].index == 0 {
          return Some(events[i].ledger);
        }
      }
      return None;
    }

    method WalkBackFrom(latest: int) returns (w: Walk)
      requires cfg.scanWindow > 0
      modifies this`k
      ensures w == WalkBack(cfg, src, old(k), WalkStart(cfg, latest), latest) && k == w.k
    {
      var windowFrom := WalkStart(cfg, latest);
      while windowFrom <= latest
        invariant WalkBack(cfg, src, k, windowFrom, latest)
                  == WalkBack(cfg, src, old(k), WalkStart(cfg, latest), latest)
        decreases latest - windowFrom + 1
      {
        var windowTo := Min(windowFrom + cfg.scanWindow - 1, latest);
        var f := Fetch(windowFrom, windowTo);
        if f.FetchFailed? {
          return WalkFailed(f.error, k);
        }
        var l := FindLeafZero(f.events);
        if l.Some? {
          return Found(l.value, k);
        }
        windowFrom := windowTo + 1;
      }
      return WalkFailed(LeafZeroNotFound, k);
    }

    method Ingest(from: int, safe: int) returns (r: Ingested)
      requires cfg.scanWindow > 0
      modifies this`k, db
      ensures Pass(db.Abs(), k, r) == IngestRange(cfg, src, old(k), old(db.Abs()), from, safe)
    {
      hide BatchStep, FetchRange;
      var windowFrom := from;
      while windowFrom <= safe
        invariant IngestRange(cfg, src, k, db.Abs(), windowFrom, safe)
               == IngestRange(cfg, src, old(k), old(db.Abs()), from, safe)
        decreases safe - windowFrom + 1
      {
        var windowTo := Min(windowFrom + cfg.scanWindow - 1, safe);
        var f := Fetch(windowFrom, windowTo);
        if f.FetchFailed? {
          return Failed(f.error);
        }
        if f.oldest > 0 && windowFrom < f.oldest {
          return Failed(Retention);
        }
        var res := db.ApplyBatch(f.events, windowTo);
        match res {
          case Gap(expected) => return GapAt(expected);
          case DuplicateValue => return Failed(Database);
          case Applied => windowFrom := windowTo + 1;
        }
      }
      return Done;
    }

    /** The loop of a tick. */
    method Passes(deploy0: int, from0: int, safe: int)
        returns (error: Option<Error>, ghost reanchors: nat, ghost rewinds: nat)
      requires cfg.scanWindow > 0
      modifies this`k, db
      ensures Outcome(db.Abs(), k, error, reanchors, rewinds)
           == Rescan(cfg, src, old(k), old(db.Abs()), deploy0, from0, safe, 0, 0)
    {
      hide IngestRange, WalkBack;
      var deploy, from, attempts := deploy0, from0, 0;
      reanchors, rewinds := 0, 0;
      while true
        invariant attempts == rewinds <= cfg.maxRescan
        invariant Rescan(cfg, src, k, db.Abs(), deploy, from, safe, reanchors, rewinds)
               == Rescan(cfg, src, old(k), old(db.Abs()), deploy0, from0, safe, 0, 0)
        decreases src.calls - k
      {
        var res := Ingest(from, safe);
        if res.Failed? {
          return Some(res.error), reanchors, rewinds;
        }
        if res.Done? {
          db.SetGapState(false);
          return None, reanchors, rewinds;
        }
        if res.expected == 0 {
          var w := WalkBackFrom(safe);
          if w.WalkFailed? {
            return Some(w.error), reanchors, rewinds;
          }
          deploy := w.ledger;
          db.SetDeployLedger(deploy);
          from := deploy;
          reanchors := reanchors + 1;
          continue;
        }
        attempts := attempts + 1;
        if attempts > cfg.maxRescan {
          return Some(GapUnresolved(res.expected)), reanchors, rewinds;
        }
        rewinds := rewinds + 1;
        db.SetGapState(true);
        var rewind := LedgerOfLeaf(db.Abs(), res.expected - 1);
        from := if rewind.None? || rewind.value < deploy then deploy else rewind.value;
      }
    }

    /** Discovers and stores the deploy ledger when none is stored. */
    method EnsureAnchor(l: Ledgers) returns (error: Option<Error>, deploy: int)
      requires cfg.scanWindow > 0
      modifies this`k, db
      ensures match FindAnchor(cfg, src, old(k), old(db.Abs()), l)
        case Unanchored(e, k') => error == Some(e) && k == k' && db.Abs() == old(db.Abs())
        case Anchored(db', d, k') => error == None && deploy == d && k == k' && db.Abs() == db'
    {
      if db.deploy.Some? {
        return None, db.deploy.value;
      }
      if l.latestForDeploy.None? {
        return Some(Rpc), 0;
      }
      if l.instance.Some? {
        db.SetDeployLedger(l.instance.value);
        return None, l.instance.value;
      }
      var w := WalkBackFrom(l.latestForDeploy.value);
      if w.WalkFailed? {
        return Some(w.error), 0;
      }
      db.SetDeployLedger(w.ledger);
      return None, w.ledger;
    }

    method RunTick(l: Ledgers) returns (error: Option<Error>, ghost reanchors: nat, ghost rewinds: nat)
      requires cfg.scanWindow > 0
      modifies this`k, db
      ensures Outcome(db.Abs(), k, error, reanchors, rewinds) == Tick(cfg, src, old(k), old(db.Abs()), l)
    {
      reanchors, rewinds := 0, 0;
      var anchorError, deploy := EnsureAnchor(l);
      if anchorError.Some? {
        return anchorError, 0, 0;
      }
      if l.latest.None? {
        return Some(Rpc), 0, 0;
      }
      var safe := l.latest.value - cfg.confirmations;
      var next := db.NextLeafIndex();
      var from := if next == 0 then deploy else db.cursor + 1;
      if from > safe {
        return None, 0, 0;
      }
      error, reanchors, rewinds := Passes(deploy, from, safe);
    }
  }

  lemma {:induction false} DecodeBroken(raws: seq<Raw>, i: nat, to: int)
    requires i < |raws| && raws[i].Broken? && LedgerOf(raws[i]) <= to
    ensures Decode(raws, to).None?
  {
    if i < |raws| - 1 {
      DecodeBroken(raws[..|raws| - 1], i, to);
    }
  }
}
