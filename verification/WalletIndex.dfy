/** The wallet over the indexer's table: what the indexer serves after a run of the vault is a tree the vault
    knows, and what the wallet builds from it the vault accepts. */
module WalletIndex {
  import opened Basics
  import opened PaddedTree
  import opened Field
  import opened Circuit
  import opened VaultSpec
  import opened VaultRuns
  import opened VaultEvents
  import opened WalletPlans
  import opened WalletCompleteness
  import FrontierTree
  import SparseTree
  import D = IndexerDb
  import S = IndexerSafety
  import X = Indexer
  import H = IndexerHealing

  /** The rows below index `n` as the indexer serves them, in leaf order. */
  function ServedBelow(db: D.Tables, n: nat): seq<SparseTree.Commitment> {
    if n == 0 then []
    else
      ServedBelow(db, n - 1) +
      if n - 1 in db.commitments then [SparseTree.Commitment(n - 1, db.commitments[n - 1].value)] else []
  }

  /** All commitments the wallet fetches. */
  ghost function Served(db: D.Tables): seq<SparseTree.Commitment> {
    ServedBelow(db, D.NextLeaf(db.commitments))
  }

  lemma {:induction false} ServedBelowIs(c: S.Chain, db: D.Tables, n: nat)
    requires S.Mirrors(c, db) && n <= D.NextLeaf(db.commitments)
    ensures var cs := ServedBelow(db, n);
      |cs| == n && forall i :: 0 <= i < n ==> cs[i].leafIndex == i && cs[i].value == c.leaves[i].value
  {
    if n > 0 {
      ServedBelowIs(c, db, n - 1);
      assert n - 1 in S.Prefix(c, D.NextLeaf(db.commitments));
    }
  }

  /** The table of a vault's history is served as a contiguous list of true leaves. */
  lemma ServedIsGenuine(c: S.Chain, s: State, db: D.Tables)
    requires Records(c, s) && S.Mirrors(c, db)
    ensures var cs := Served(db);
      && |cs| == D.NextLeaf(db.commitments) <= |s.leaves|
      && (forall i :: 0 <= i < |cs| ==> cs[i].leafIndex == i)
      && SparseTree.Genuine(cs, s.leaves)
  {
    ServedBelowIs(c, db, D.NextLeaf(db.commitments));
    var cs := Served(db);
    forall e | e in cs ensures e.leafIndex < |s.leaves| && e.value == s.leaves[e.leafIndex] {
      var i :| 0 <= i < |cs| && cs[i] == e;
    }
  }

  /** Fewer leaves came after ledger `safe` than the vault remembers roots. */
  ghost predicate Recent(c: S.Chain, safe: int) {
    forall i: nat :: i + ROOT_HISTORY <= |c.leaves| ==> c.leaves[i].ledger <= safe
  }

  lemma FewMissing(c: S.Chain, db: D.Tables, safe: int)
    requires S.Mirrors(c, db) && H.StoredBefore(H.LeavesOnly, c, db, safe + 1) && Recent(c, safe)
    ensures |c.leaves| < D.NextLeaf(db.commitments) + ROOT_HISTORY
  {
    if |c.leaves| >= ROOT_HISTORY {
      var i := |c.leaves| - ROOT_HISTORY;
      assert i + ROOT_HISTORY <= |c.leaves|;
      assert S.Genuine(c, H.LeafEvent(c, i)) && S.Stored(db, H.LeafEvent(c, i));
    }
  }

  function TreeOf(pr: Primitives, cs: seq<SparseTree.Commitment>): F {
    Root(pr.compress, LEVELS, SparseTree.Assigned(cs))
  }

  /** The tables hold every leaf of the vault's history up to a ledger after which only a few came. */
  ghost predicate UpToDate(c: S.Chain, db: D.Tables, safe: int) {
    S.Mirrors(c, db) && H.StoredBefore(H.LeavesOnly, c, db, safe + 1) && Recent(c, safe)
  }

  /** From the vault to the wallet's tree: after any run of the vault in ledger order, tables that are up to date
      are served as a contiguous list of true leaves, whose root the vault knows unless it is zero. */
  lemma ServedTreeKnown(host: Host, config: Config, balances: Balances, steps: seq<Step>, stamps: seq<Stamp>,
                        db: D.Tables, safe: int)
    requires |steps| == |stamps| && Ordered(stamps)
    requires UpToDate(ChainOf(host, Initial(config, balances), steps, stamps, |steps|), db, safe)
    ensures var s, cs := Final(host, Initial(config, balances), steps), Served(db);
      && (forall i :: 0 <= i < |cs| ==> cs[i].leafIndex == i)
      && SparseTree.Genuine(cs, s.leaves) && |s.leaves| <= Pow2(LEVELS)
      && (TreeOf(host.pr, cs) != 0 ==> IsKnown(host, s.leaves, TreeOf(host.pr, cs)))
  {
    hide ChainOf, Accepted, After, AcceptedCount, Announced, Numbered, Served, Root, Recent, S.Mirrors, H.StoredBefore;
    hide S.ValidChain, Published, FrontierTree.KnownRoot, FrontierTree.RootAfter, Pow2;
    var s0 := Initial(config, balances);
    var s, c := StateAt(host, s0, steps, |steps|), ChainOf(host, s0, steps, stamps, |steps|);
    RunGivesChain(host, config, balances, steps, stamps, |steps|);
    CapacityAndEvents(host, config, balances, steps, |steps|);
    ServedIsGenuine(c, s, db);
    FewMissing(c, db, safe);
    SparseTree.ContiguousIsPrefix(host.pr.compress, DEPTH, ROOT_HISTORY, Served(db), s.leaves);
  }

  /** A tick that heals makes the tables up to date, whatever ticks over truthful sources ran before. */
  lemma HealedIsUpToDate(c: S.Chain, cfg: X.Config, ticks: seq<H.TickInput>, src: X.Source, k: nat, l: X.Ledgers)
    requires cfg.scanWindow > 0 && cfg.maxRescan > 0 && S.ValidChain(c)
    requires forall t :: t in ticks ==> H.Truthful(c, t.src)
    requires H.Faithful(cfg.pageLimit, c, src) && l.latest.Some? && Recent(c, l.latest.value - cfg.confirmations)
    requires var db := H.AfterTicks(cfg, S.EMPTY, ticks);
      var a, safe := X.FindAnchor(cfg, src, k, db, l), l.latest.value - cfg.confirmations;
      && a.Anchored? && X.Tick(cfg, src, k, db, l).error.None?
      && var from := if db.commitments == map[] then a.deploy else db.cursor + 1;
      && from <= safe && (H.StoredBefore(H.LeavesOnly, c, db, from) || H.LeafWithin(c, from, safe))
    ensures UpToDate(c, X.Tick(cfg, src, k, H.AfterTicks(cfg, S.EMPTY, ticks), l).db,
                     l.latest.value - cfg.confirmations)
  {
    hide X.Tick, X.FindAnchor, H.AfterTicks, H.StoredBefore, H.LeafWithin, S.Mirrors, Recent, H.Truthful, S.ValidChain;
    H.SelfHealing(H.LeavesOnly, c, cfg, ticks, src, k, l);
    H.TicksKeep(H.LeavesOnly, c, cfg, ticks);
    H.TickKeeps(c, cfg, src, k, H.AfterTicks(cfg, S.EMPTY, ticks), l);
  }

  lemma WithdrawRoot(out: Outside, w: Wallet, cs: seq<SparseTree.Commitment>, notes: seq<Note>, amount: int,
                     relay: bool, quote: nat, relayer: Address, dummy: F, b0: F, b1: F)
    requires Withdraw(out, w, cs, notes, amount, relay, quote, relayer, dummy, b0, b1).Success?
    ensures Withdraw(out, w, cs, notes, amount, relay, quote, relayer, dummy, b0, b1).value.proof.root
            == TreeOf(out.pr, cs)
  {
    hide LeafIndexOf, RealInput, Root;
  }

  lemma TreeRootCanonical(pr: Primitives, cs: seq<SparseTree.Commitment>)
    requires Sound(pr)
    ensures Canonical(TreeOf(pr, cs))
  {
  }

  /** What the wallet must bring: notes it located once each among the served leaves, that cover amount and fee. */
  ghost predicate Spendable(out: Outside, w: Wallet, cs: seq<SparseTree.Commitment>, notes: seq<Note>, needed: int) {
    && WalletOk(out.pr, w) && Amounts(notes)
    && 1 <= |notes| <= 2 && (|notes| == 2 ==> notes[0].commitment != notes[1].commitment)
    && (forall n :: n in notes ==> |Matches(cs, CommitmentOf(out.pr, w, n))| == 1)
    && needed <= SumNotes(notes) < needed + AMOUNT_BOUND
  }

  /** Everything else a plan needs to be accepted: values in range, different nullifiers, a vault that takes such a
      plan, and a proof. */
  ghost predicate Submittable(host: Host, out: Outside, s: State, p: Plan, points: Groth16Proof, sender: Address) {
    && InRange(p.ext) && p.proof.publicAmount >= 0 && Consistent(out, p)
    && |p.proof.nullifiers| == 2 && p.proof.nullifiers[0] != p.proof.nullifiers[1]
    && Open(host, s, p, sender) && SameWorld(host, out, p, s.config.value.domain, points)
  }

  lemma SubmittedUnderKnownRoot(host: Host, out: Outside, s: State, p: Plan, points: Groth16Proof, sender: Address)
    requires Sound(out.pr) && Sendable(out, p) && Submittable(host, out, s, p, points, sender)
    requires IsKnown(host, s.leaves, p.proof.root) && Canonical(p.proof.root)
    ensures Transact(host, s, TxProofOf(p, points), ExtOf(p.ext), sender, true).1 == Ok
  {
    hide Sound, Sendable, SameWorld, IsKnown, Transact, Consistent, Pay, Pow2;
    PlanAccepted(host, out, s, p, points, sender);
  }

  /** The whole way round: after any run of the vault, a withdraw from tables that are up to date is built, and
      a vault that takes such a plan accepts it. */
  lemma {:induction false} ServedWithdrawAccepted(
      host: Host, config: Config, balances: Balances, steps: seq<Step>, stamps: seq<Stamp>, db: D.Tables, safe: int,
      out: Outside, w: Wallet, notes: seq<Note>, amount: int, relay: bool, quote: nat, relayer: Address,
      dummy: F, b0: F, b1: F, points: Groth16Proof, sender: Address)
    requires |steps| == |stamps| && Ordered(stamps)
    requires UpToDate(ChainOf(host, Initial(config, balances), steps, stamps, |steps|), db, safe)
    requires Sound(out.pr) && host.pr == out.pr && TreeOf(out.pr, Served(db)) != 0
    requires forall r :: out.isKnownRoot(r) <==> IsKnown(host, Final(host, Initial(config, balances), steps).leaves, r)
    requires Spendable(out, w, Served(db), notes, amount + if relay then quote else 0)
    ensures var r := Withdraw(out, w, Served(db), notes, amount, relay, quote, relayer, dummy, b0, b1);
      var s := Final(host, Initial(config, balances), steps);
      && r.Success? && Sendable(out, r.value)
      && (Submittable(host, out, s, r.value, points, sender) ==>
            Transact(host, s, TxProofOf(r.value, points), ExtOf(r.value.ext), sender, true).1 == Ok)
  {
    hide ChainOf, StateAt, Served, UpToDate, Sound, IsKnown, Withdraw, Sendable, Submittable, Transact, Root, Pow2;
    var s, cs := Final(host, Initial(config, balances), steps), Served(db);
    ServedTreeKnown(host, config, balances, steps, stamps, db, safe);
    WithdrawSucceedsIff(out, w, cs, notes, amount, relay, quote, relayer, dummy, b0, b1);
    WithdrawSendable(out, w, cs, s.leaves, notes, amount, relay, quote, relayer, dummy, b0, b1);
    WithdrawRoot(out, w, cs, notes, amount, relay, quote, relayer, dummy, b0, b1);
    TreeRootCanonical(out.pr, cs);
    var p := Withdraw(out, w, cs, notes, amount, relay, quote, relayer, dummy, b0, b1).value;
    if Submittable(host, out, s, p, points, sender) {
      SubmittedUnderKnownRoot(host, out, s, p, points, sender);
    }
  }
}
