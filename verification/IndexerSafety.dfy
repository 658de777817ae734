/** What every batch keeps, whatever subset of the true events it delivers and wherever the indexer
    stops: the commitments table is a prefix of the vault's leaves. */
module IndexerSafety {
  import opened Basics
  import opened IndexerDb

  /** The vault's full history: leaves in index order and nullifiers by value. */
  datatype Chain = Chain(leaves: seq<Row>, nulls: map<nat, NullRow>)

  /** Ledgers never go back along the leaves, and every nullifier was published by a transaction that
      also inserted leaves. */
  ghost predicate ValidChain(c: Chain) {
    && (forall i, j :: 0 <= i <= j < |c.leaves| ==> c.leaves[i].ledger <= c.leaves[j].ledger)
    && (forall v :: v in c.nulls ==> exists i :: 0 <= i < |c.leaves| && SameTx(c.leaves[i], c.nulls[v]))
  }

  predicate SameTx(r: Row, n: NullRow) {
    r.ledger == n.ledger && r.txHash == n.txHash
  }

  predicate Genuine(c: Chain, e: Event) {
    match e
    case Commitment(i, _, _, _, _) => i < |c.leaves| && c.leaves[i] == RowOf(e)
    case Nullifier(v, ledger, txHash) => v in c.nulls && c.nulls[v] == NullRow(ledger, txHash)
  }

  ghost predicate AllGenuine(c: Chain, events: seq<Event>) {
    forall e :: e in events ==> Genuine(c, e)
  }

  function Prefix(c: Chain, n: nat): map<nat, Row>
    requires n <= |c.leaves|
  {
    map i: nat | i < n :: c.leaves[i]
  }

  ghost predicate DistinctTo(c: Chain, n: nat)
    requires n <= |c.leaves|
  {
    forall i, j :: 0 <= i < j < n ==> c.leaves[i].value != c.leaves[j].value
  }

  /** The tables hold a prefix of the leaves, of pairwise distinct values, and only true nullifiers. */
  ghost predicate Mirrors(c: Chain, db: Tables) {
    var n := NextLeaf(db.commitments);
    && n <= |c.leaves|
    && db.commitments == Prefix(c, n)
    && DistinctTo(c, n)
    && forall v :: v in db.nullifiers ==> v in c.nulls && db.nullifiers[v] == c.nulls[v]
  }

  predicate Stored(db: Tables, e: Event) {
    match e
    case Commitment(i, _, _, _, _) => i in db.commitments
    case Nullifier(v, _, _) => v in db.nullifiers
  }

  /** How events are delivered together: the unit of an event given its ledger and transaction. */
  type Unit = (nat, nat) -> nat

  function ByLedger(): Unit { (ledger: nat, tx: nat) => ledger }

  function ByTx(): Unit { (ledger: nat, tx: nat) => tx }

  function UnitOf(u: Unit, e: Event): nat {
    u(e.ledger, e.txHash)
  }

  /** A delivery that contains each unit fully or not at all. */
  ghost predicate Whole(u: Unit, c: Chain, events: seq<Event>) {
    forall e, e' | e in events && Genuine(c, e') && UnitOf(u, e') == UnitOf(u, e) :: e' in events
  }

  /** Whatever shares a unit with a stored leaf is stored. */
  ghost predicate Closed(u: Unit, c: Chain, db: Tables) {
    forall i, e | i in db.commitments && Genuine(c, e)
        && UnitOf(u, e) == u(db.commitments[i].ledger, db.commitments[i].txHash) ::
      Stored(db, e)
  }

  lemma PrefixNext(c: Chain, n: nat)
    requires n <= |c.leaves|
    ensures NextLeaf(Prefix(c, n)) == n
  {
    assert IsNext(Prefix(c, n), n);
    NextIsUnique(Prefix(c, n), n, NextLeaf(Prefix(c, n)));
  }

  ghost predicate HasIndex(cs: seq<Event>, i: nat) {
    exists e :: e in cs && e.Commitment? && e.index == i
  }

  /** What absorbing true commitments into a prefix `n` gives: it extends it to a prefix `m`, or stops
      there. It stops with a gap when leaf `m` is not among them although a later one is, and with a
      duplicate when leaf `m` repeats an earlier value. Every index between was delivered. */
  ghost predicate AbsorbedOk(c: Chain, n: nat, cs: seq<Event>, m: nat, a: Absorbed)
    requires AllCommits(cs)
  {
    && n <= m <= |c.leaves| && DistinctTo(c, m)
    && (forall i: nat :: n <= i < m ==> HasIndex(cs, i))
    && a.table == Prefix(c, m)
    && (a.result.Applied? ==> forall e :: e in cs ==> e.index < m)
    && (a.result.Gap? ==>
          && a.result.expected == m && m < |c.leaves|
          && !HasIndex(cs, m) && exists e :: e in cs && m < e.index)
    && (a.result.DuplicateValue? ==> m < |c.leaves| && !DistinctTo(c, m + 1) && HasIndex(cs, m))
  }

  lemma {:induction false} AbsorbGenuine(c: Chain, n: nat, cs: seq<Event>) returns (m: nat)
    requires AllCommits(cs) && SortedByIndex(cs) && AllGenuine(c, cs)
    requires n <= |c.leaves| && DistinctTo(c, n)
    ensures AbsorbedOk(c, n, cs, m, Absorb(Prefix(c, n), n, cs))
    decreases |cs|
  {
    if cs == [] {
      m := n;
    } else {
      hide AbsorbedOk, DistinctTo, HasValue, Prefix, RowOf;
      var e, rest := cs[0], cs[1..];
      assert e in cs && cs == [e] + rest;
      if e.index < n {
        m := AbsorbGenuine(c, n, rest);
        AbsorbedWiden(c, n, n, cs, m, Absorb(Prefix(c, n), n, rest));
      } else if e.index > n {
        m := n;
        AbsorbedGap(c, n, cs);
      } else {
        NextValue(c, n, e);
        if HasValue(Prefix(c, n), e.value) {
          m := n;
          AbsorbedDuplicate(c, n, cs);
        } else {
          m := AbsorbGenuine(c, n + 1, rest);
          AbsorbedWiden(c, n, n + 1, cs, m, Absorb(Prefix(c, n + 1), n + 1, rest));
        }
      }
    }
  }

  /** Inserting the next leaf gives the next prefix; its value is taken exactly when it repeats one. */
  lemma NextValue(c: Chain, n: nat, e: Event)
    requires n < |c.leaves| && DistinctTo(c, n) && e.Commitment? && Genuine(c, e) && e.index == n
    ensures HasValue(Prefix(c, n), e.value) <==> !DistinctTo(c, n + 1)
    ensures Prefix(c, n)[n := RowOf(e)] == Prefix(c, n + 1)
  {
    if HasValue(Prefix(c, n), e.value) {
      var i :| i in Prefix(c, n) && c.leaves[i].value == e.value;
      assert c.leaves[i].value == c.leaves[n].value;
    } else {
      forall i, j | 0 <= i < j < n + 1 ensures c.leaves[i].value != c.leaves[j].value {
        assert j == n ==> i in Prefix(c, n);
      }
    }
  }

  lemma AbsorbedGap(c: Chain, n: nat, cs: seq<Event>)
    requires AllCommits(cs) && SortedByIndex(cs) && AllGenuine(c, cs) && cs != [] && n < cs[0].index
    requires n <= |c.leaves| && DistinctTo(c, n)
    ensures AbsorbedOk(c, n, cs, n, Absorbed(Prefix(c, n), Gap(n)))
  {
    assert Genuine(c, cs[0]);
  }

  lemma AbsorbedDuplicate(c: Chain, n: nat, cs: seq<Event>)
    requires AllCommits(cs) && cs != [] && cs[0].index == n < |c.leaves| && DistinctTo(c, n) && !DistinctTo(c, n + 1)
    ensures AbsorbedOk(c, n, cs, n, Absorbed(Prefix(c, n), DuplicateValue))
  {
    assert HasIndex(cs, n);
  }

  /** Putting a smaller or the next index in front. */
  lemma AbsorbedWiden(c: Chain, n: nat, n': nat, cs: seq<Event>, m: nat, a: Absorbed)
    requires AllCommits(cs) && SortedByIndex(cs) && cs != [] && cs[0].index < n' && n <= n'
    requires n < n' ==> n' == n + 1 && cs[0].index == n
    requires AbsorbedOk(c, n', cs[1..], m, a)
    ensures AbsorbedOk(c, n, cs, m, a)
  {
    IndicesWiden(cs, m);
    assert cs == [cs[0]] + cs[1..];
    assert n < n' ==> HasIndex(cs, n);
  }

  lemma IndicesWiden(cs: seq<Event>, m: nat)
    requires cs != [] && AllCommits(cs) && SortedByIndex(cs)
    ensures forall i: nat :: HasIndex(cs[1..], i) ==> HasIndex(cs, i)
    ensures cs[0].index != m && !HasIndex(cs[1..], m) ==> !HasIndex(cs, m)
    ensures forall e :: e in cs[1..] ==> e in cs
  {
    assert cs == [cs[0]] + cs[1..];
    forall i: nat | HasIndex(cs[1..], i) ensures HasIndex(cs, i) {
      var e :| e in cs[1..] && e.Commitment? && e.index == i;
      assert e in cs;
    }
  }

  /** Nullifier rows of a batch: nothing is lost, exactly the batch's values are added. */
  lemma {:induction false} AddNullsContents(c: Chain, ns: map<nat, NullRow>, events: seq<Event>)
    requires AllGenuine(c, events) && forall e :: e in events ==> e.Nullifier?
    requires forall v :: v in ns ==> v in c.nulls && ns[v] == c.nulls[v]
    ensures var r := AddNulls(ns, events);
      && (forall v :: v in r ==> v in c.nulls && r[v] == c.nulls[v])
      && (forall v :: v in ns ==> v in r)
      && (forall e :: e in events ==> e.value in r)
      && (forall v :: v in r && v !in ns ==> exists e :: e in events && e.value == v)
  {
    if events != [] {
      var front, e := events[..|events| - 1], events[|events| - 1];
      assert events == front + [e];
      AddNullsContents(c, ns, front);
      var r := AddNulls(ns, events);
      forall v | v in r && v !in ns ensures exists e :: e in events && e.value == v {
        if v == e.value {
          assert e in events;
        } else {
          var e' :| e' in front && e'.value == v;
          assert e' in events;
        }
      }
    }
  }

  lemma BatchContents(events: seq<Event>)
    ensures AllCommits(BatchCommits(events)) && SortedByIndex(BatchCommits(events))
    ensures forall e :: e in BatchCommits(events) <==> e in events && e.Commitment?
    ensures forall e :: e in BatchNulls(events) <==> e in events && e.Nullifier?
  {
    CommitsContents(events);
    NullsContents(events);
  }

  ghost predicate BatchHasIndex(events: seq<Event>, i: nat) {
    exists e :: e in events && e.Commitment? && e.index == i
  }

  /** One batch of true events, from a mirroring database: it stays mirroring and never loses a row.
      If it applies, everything in the batch is stored and nothing else is added; a gap names the first
      missing leaf, which the batch did not contain although it had a later one. */
  lemma BatchGenuine(c: Chain, db: Tables, events: seq<Event>, safe: int)
    requires Mirrors(c, db) && AllGenuine(c, events)
    ensures var (db', r) := BatchStep(db, events, safe);
      && Mirrors(c, db')
      && NextLeaf(db.commitments) <= NextLeaf(db'.commitments)
      && db'.deploy == db.deploy
      && (forall e :: Stored(db, e) ==> Stored(db', e))
      && (r.Applied? ==> db'.cursor == safe)
      && (r.Applied? ==> forall e :: e in events ==> Stored(db', e))
      && (forall i: nat :: NextLeaf(db.commitments) <= i < NextLeaf(db'.commitments) ==> BatchHasIndex(events, i))
      && (!r.Applied? ==> db' == db)
      && (r.Gap? ==> NextLeaf(db.commitments) <= r.expected < |c.leaves| && !BatchHasIndex(events, r.expected)
                     && exists e :: e in events && e.Commitment? && r.expected < e.index)
      && (r.Gap? ==> forall i: nat :: NextLeaf(db.commitments) <= i < r.expected ==> BatchHasIndex(events, i))
      && (r.DuplicateValue? ==> exists m: nat :: m < |c.leaves| && BatchHasIndex(events, m) && !DistinctTo(c, m + 1))
  {
    hide Absorb, AddNulls, BatchCommits, BatchNulls, Genuine;
    var n := NextLeaf(db.commitments);
    var cs, ns := BatchCommits(events), BatchNulls(events);
    BatchContents(events);
    var m := AbsorbGenuine(c, n, cs);
    PrefixNext(c, m);
    forall i: nat ensures HasIndex(cs, i) <==> BatchHasIndex(events, i) {
    }
    AddNullsContents(c, db.nullifiers, ns);
    var (db', r) := BatchStep(db, events, safe);
    if r.Applied? {
      forall e | e in events ensures Stored(db', e) {
        if e.Commitment? {
          assert e in cs;
        } else {
          assert e in ns;
        }
      }
    }
  }

  /** Delivery in whole units keeps the tables closed under the unit. */
  lemma BatchKeepsClosed(u: Unit, c: Chain, db: Tables, events: seq<Event>, safe: int)
    requires Mirrors(c, db) && AllGenuine(c, events)
    requires Closed(u, c, db) && Whole(u, c, events)
    ensures Closed(u, c, BatchStep(db, events, safe).0)
  {
    hide BatchStep;
    BatchGenuine(c, db, events, safe);
    var (db', r) := BatchStep(db, events, safe);
    var n := NextLeaf(db.commitments);
    if r.Applied? {
      forall i, e | i in db'.commitments && Genuine(c, e)
          && UnitOf(u, e) == u(db'.commitments[i].ledger, db'.commitments[i].txHash)
        ensures Stored(db', e)
      {
        if i < n {
          assert i in db.commitments && db.commitments[i] == db'.commitments[i];
          assert Stored(db, e);
        } else {
          assert BatchHasIndex(events, i);
          var e0 :| e0 in events && e0.Commitment? && e0.index == i;
          assert Genuine(c, e0);
          assert e in events;
        }
      }
    }
  }

  // ----- runs of database operations: crashes and restarts included

  datatype Op = Batch(events: seq<Event>, to: int) | SetDeploy(ledger: int) | SetGap(gap: bool)

  ghost function AfterOp(db: Tables, op: Op): Tables {
    match op
    case Batch(events, to) => BatchStep(db, events, to).0
    case SetDeploy(ledger) => db.(deploy := Some(ledger))
    case SetGap(gap) => db.(gap := gap)
  }

  ghost function AfterOps(db: Tables, ops: seq<Op>): Tables {
    if ops == [] then db else AfterOp(AfterOps(db, ops[..|ops| - 1]), ops[|ops| - 1])
  }

  const EMPTY := Tables(map[], map[], 0, None, false)

  lemma EmptyOk(u: Unit, c: Chain)
    ensures Mirrors(c, EMPTY) && Closed(u, c, EMPTY)
  {
    assert Prefix(c, 0) == map[];
    PrefixNext(c, 0);
  }

  ghost predicate GenuineOp(c: Chain, op: Op) {
    op.Batch? ==> AllGenuine(c, op.events)
  }

  ghost predicate WholeOp(u: Unit, c: Chain, op: Op) {
    op.Batch? ==> Whole(u, c, op.events)
  }

  lemma OtherOpKeeps(u: Unit, c: Chain, db: Tables, op: Op)
    requires !op.Batch? && Mirrors(c, db)
    ensures Mirrors(c, AfterOp(db, op)) && (Closed(u, c, db) ==> Closed(u, c, AfterOp(db, op)))
  {
    if Closed(u, c, db) {
      var db' := AfterOp(db, op);
      forall i, e | i in db'.commitments && Genuine(c, e)
          && UnitOf(u, e) == u(db'.commitments[i].ledger, db'.commitments[i].txHash)
        ensures Stored(db', e)
      {
        assert Stored(db, e);
      }
    }
  }

  /** Prefix safety: however the true events were cut into batches, reordered, repeated or dropped, and
      wherever the process stopped, the table is a prefix of the leaf list; and if batches never split a
      unit, everything sharing a unit with a stored leaf is stored. */
  lemma {:induction false} PrefixSafety(u: Unit, c: Chain, ops: seq<Op>)
    requires forall op :: op in ops ==> GenuineOp(c, op)
    ensures Mirrors(c, AfterOps(EMPTY, ops))
    ensures (forall op :: op in ops ==> WholeOp(u, c, op)) ==> Closed(u, c, AfterOps(EMPTY, ops))
  {
    hide Mirrors, Closed, Whole, BatchStep;
    if ops == [] {
      EmptyOk(u, c);
    } else {
      var front, op := ops[..|ops| - 1], ops[|ops| - 1];
      assert ops == front + [op];
      PrefixSafety(u, c, front);
      assert op in ops && GenuineOp(c, op);
      if !op.Batch? {
        OtherOpKeeps(u, c, AfterOps(EMPTY, front), op);
      } else {
        BatchGenuine(c, AfterOps(EMPTY, front), op.events, op.to);
        if forall op :: op in ops ==> WholeOp(u, c, op) {
          assert WholeOp(u, c, op);
          BatchKeepsClosed(u, c, AfterOps(EMPTY, front), op.events, op.to);
        }
      }
    }
  }

  /** With whole transactions delivered, the nullifiers of every stored leaf's transaction are stored. */
  lemma StoredLeafHasNullifiers(c: Chain, ops: seq<Op>, i: nat, v: nat)
    requires forall op :: op in ops ==> GenuineOp(c, op) && WholeOp(ByTx(), c, op)
    requires i in AfterOps(EMPTY, ops).commitments && v in c.nulls
    requires AfterOps(EMPTY, ops).commitments[i].txHash == c.nulls[v].txHash
    ensures v in AfterOps(EMPTY, ops).nullifiers
  {
    PrefixSafety(ByTx(), c, ops);
    var e := Nullifier(v, c.nulls[v].ledger, c.nulls[v].txHash);
    assert Genuine(c, e);
    assert Stored(AfterOps(EMPTY, ops), e);
  }

  /** A repeated commitment stops the table for good: the unique column refuses the second copy, so no
      run ever gets past the leaf that repeats an earlier value. */
  lemma DuplicateStopsTable(c: Chain, ops: seq<Op>, i: nat, j: nat)
    requires forall op :: op in ops ==> GenuineOp(c, op)
    requires i < j < |c.leaves| && c.leaves[i].value == c.leaves[j].value
    ensures NextLeaf(AfterOps(EMPTY, ops).commitments) <= j
  {
    PrefixSafety(ByTx(), c, ops);
  }
}
