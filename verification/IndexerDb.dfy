/** The indexer's tables and their transactional, gapless update. */
module IndexerDb {
  import opened Basics

  /** A decoded vault event. */
  datatype Event =
    | Commitment(index: nat, value: nat, enc: Bytes, ledger: nat, txHash: nat)
    | Nullifier(value: nat, ledger: nat, txHash: nat)

  datatype Row = Row(value: nat, enc: Bytes, ledger: nat, txHash: nat)
  datatype NullRow = NullRow(ledger: nat, txHash: nat)

  /** The commitments table is keyed by leaf index and its commitment column is unique. */
  datatype Tables = Tables(commitments: map<nat, Row>, nullifiers: map<nat, NullRow>,
                           cursor: int, deploy: Option<int>, gap: bool)

  datatype ApplyResult = Applied | Gap(expected: nat) | DuplicateValue

  /** `n` is COALESCE(MAX(leaf_index) + 1, 0). */
  predicate IsNext(t: map<nat, Row>, n: nat) {
    (forall i :: i in t ==> i < n) && (n > 0 ==> n - 1 in t)
  }

  ghost function NextLeaf(t: map<nat, Row>): (n: nat)
    ensures IsNext(t, n)
  {
    NextLeafExists(t);
    var n: nat :| IsNext(t, n);
    n
  }

  lemma {:induction false} NextLeafExists(t: map<nat, Row>)
    ensures exists n: nat :: IsNext(t, n)
    decreases t.Keys
  {
    if t == map[] {
      assert IsNext(t, 0);
    } else {
      var k :| k in t;
      var t' := t - {k};
      assert t'.Keys < t.Keys;
      NextLeafExists(t');
      var n: nat :| IsNext(t', n);
      var m: nat := if k < n then n else k + 1;
      assert forall i :: i in t ==> i == k || i in t';
      assert IsNext(t, m);
    }
  }

  function Commits(events: seq<Event>): seq<Event> {
    if events == [] then []
    else (if events[0].Commitment? then [events[0]] else []) + Commits(events[1..])
  }

  function Nulls(events: seq<Event>): seq<Event> {
    if events == [] then []
    else (if events[0].Nullifier? then [events[0]] else []) + Nulls(events[1..])
  }

  predicate AllCommits(cs: seq<Event>) {
    forall c :: c in cs ==> c.Commitment?
  }

  predicate SortedByIndex(cs: seq<Event>)
    requires AllCommits(cs)
  {
    forall i, j :: 0 <= i < j < |cs| ==> cs[i].index <= cs[j].index
  }

  lemma {:induction false} CommitsContents(events: seq<Event>)
    ensures AllCommits(Commits(events))
    ensures forall e :: e in Commits(events) <==> e in events && e.Commitment?
  {
    if events != [] {
      CommitsContents(events[1..]);
      assert events == [events[0]] + events[1..];
    }
  }

  lemma {:induction false} NullsContents(events: seq<Event>)
    ensures forall e :: e in Nulls(events) <==> e in events && e.Nullifier?
  {
    if events != [] {
      NullsContents(events[1..]);
      assert events == [events[0]] + events[1..];
    }
  }

  /** Insertion into a list sorted by leaf index. */
  function InsertSorted(c: Event, cs: seq<Event>): (r: seq<Event>)
    requires c.Commitment? && AllCommits(cs) && SortedByIndex(cs)
    ensures forall e :: e in r <==> e == c || e in cs
    ensures AllCommits(r) && SortedByIndex(r)
  {
    if cs == [] || c.index <= cs[0].index then
      [c] + cs
    else
      var tail := InsertSorted(c, cs[1..]);
      assert forall e :: e in tail ==> e.Commitment? && cs[0].index <= e.index;
      assert forall e :: e in cs <==> e == cs[0] || e in cs[1..];
      [cs[0]] + tail
  }

  /** The batch's commitments in leaf order. */
  function Sorted(cs: seq<Event>): (r: seq<Event>)
    requires AllCommits(cs)
    ensures forall e :: e in r <==> e in cs
    ensures AllCommits(r) && SortedByIndex(r)
  {
    if cs == [] then []
    else
      assert forall e :: e in cs <==> e == cs[0] || e in cs[1..];
      InsertSorted(cs[0], Sorted(cs[1..]))
  }

  lemma {:induction false} InsertSortedPermutes(c: Event, cs: seq<Event>)
    requires c.Commitment? && AllCommits(cs) && SortedByIndex(cs)
    ensures multiset(InsertSorted(c, cs)) == multiset(cs) + multiset{c}
  {
    if cs != [] && c.index > cs[0].index {
      InsertSortedPermutes(c, cs[1..]);
      assert cs == [cs[0]] + cs[1..];
    }
  }

  /** Sorting keeps every occurrence. */
  lemma {:induction false} SortedPermutes(cs: seq<Event>)
    requires AllCommits(cs)
    ensures multiset(Sorted(cs)) == multiset(cs)
  {
    if cs != [] {
      SortedPermutes(cs[1..]);
      InsertSortedPermutes(cs[0], Sorted(cs[1..]));
      assert cs == [cs[0]] + cs[1..];
    }
  }

  predicate HasValue(t: map<nat, Row>, v: nat) {
    exists i :: i in t && t[i].value == v
  }

  function RowOf(c: Event): Row
    requires c.Commitment?
  {
    Row(c.value, c.enc, c.ledger, c.txHash)
  }

  datatype Absorbed = Absorbed(table: map<nat, Row>, result: ApplyResult)

  /** Inserts sorted commitments one by one: known indices are skipped, the next index is inserted
      unless its value is taken, any other index is a gap. */
  function Absorb(t: map<nat, Row>, expected: nat, cs: seq<Event>): Absorbed
    requires AllCommits(cs)
    decreases |cs|
  {
    if cs == [] then Absorbed(t, Applied)
    else
      var c := cs[0];
      if c.index < expected then Absorb(t, expected, cs[1..])
      else if c.index != expected then Absorbed(t, Gap(expected))
      else if HasValue(t, c.value) then Absorbed(t, DuplicateValue)
      else Absorb(t[c.index := RowOf(c)], expected + 1, cs[1..])
  }

  /** Nullifier rows are inserted unless present. */
  function AddNulls(ns: map<nat, NullRow>, events: seq<Event>): map<nat, NullRow>
    requires forall e :: e in events ==> e.Nullifier?
  {
    if events == [] then ns
    else
      var e := events[|events| - 1];
      var before := AddNulls(ns, events[..|events| - 1]);
      if e.value in before then before else before[e.value := NullRow(e.ledger, e.txHash)]
  }

  function BatchCommits(events: seq<Event>): (cs: seq<Event>)
    ensures AllCommits(cs)
  {
    CommitsContents(events);
    Sorted(Commits(events))
  }

  function BatchNulls(events: seq<Event>): (ns: seq<Event>)
    ensures forall e :: e in ns ==> e.Nullifier?
  {
    NullsContents(events);
    Nulls(events)
  }

  /** One batch as one transaction: all of it, with the cursor moved to `safe`, or nothing. */
  ghost function BatchStep(db: Tables, events: seq<Event>, safe: int): (Tables, ApplyResult) {
    var a := Absorb(db.commitments, NextLeaf(db.commitments), BatchCommits(events));
    if a.result.Applied? then
      (db.(commitments := a.table, nullifiers := AddNulls(db.nullifiers, BatchNulls(events)), cursor := safe), Applied)
    else (db, a.result)
  }

  function LedgerOfLeaf(db: Tables, i: int): Option<int> {
    if i >= 0 && (i as nat) in db.commitments then Some(db.commitments[i].ledger) else None
  }

  class Db {
    var commitments: map<nat, Row>
    var nullifiers: map<nat, NullRow>
    var cursor: int
    var deploy: Option<int>
    var gap: bool

    /** The stored rows as a value. */
    function Abs(): Tables
      reads this
    {
      Tables(commitments, nullifiers, cursor, deploy, gap)
    }

    constructor ()
      ensures Abs() == Tables(map[], map[], 0, None, false)
    {
      commitments, nullifiers, cursor, deploy, gap := map[], map[], 0, None, false;
    }

    method NextLeafIndex() returns (n: nat)
      ensures n == NextLeaf(commitments)
    {
      n := 0;
      var rest := commitments.Keys;
      while rest != {}
        invariant rest <= commitments.Keys
        invariant forall i :: i in commitments && i !in rest ==> i < n
        invariant n > 0 ==> n - 1 in commitments
        decreases rest
      {
        var k :| k in rest;
        if n <= k {
          n := k + 1;
        }
        rest := rest - {k};
      }
      NextIsUnique(commitments, n, NextLeaf(commitments));
    }

    /** The insert loop of a batch, on the transaction's view of the table. */
    static method AbsorbAll(t: map<nat, Row>, next: nat, commits: seq<Event>) returns (a: Absorbed)
      requires AllCommits(commits)
      ensures a == Absorb(t, next, commits)
    {
      var table: map<nat, Row> := t;
      var expected: nat := next;
      for k := 0 to |commits|
        invariant Absorb(table, expected, commits[k..]) == Absorb(t, next, commits)
      {
        var c := commits[k];
        assert commits[k..][0] == c && commits[k..][1..] == commits[k + 1..];
        if c.index < expected {
          continue;
        }
        if c.index != expected {
          return Absorbed(table, Gap(expected));
        }
        if HasValue(table, c.value) {
          return Absorbed(table, DuplicateValue);
        }
        table := table[c.index := RowOf(c)];
        expected := c.index + 1;
      }
      return Absorbed(table, Applied);
    }

    static method InsertNulls(ns: map<nat, NullRow>, nulls: seq<Event>) returns (rows: map<nat, NullRow>)
      requires forall e :: e in nulls ==> e.Nullifier?
      ensures rows == AddNulls(ns, nulls)
    {
      rows := ns;
      for k := 0 to |nulls|
        invariant rows == AddNulls(ns, nulls[..k])
      {
        var n := nulls[k];
        assert nulls[..k + 1][..k] == nulls[..k];
        if n.value !in rows {
          rows := rows[n.value := NullRow(n.ledger, n.txHash)];
        }
      }
      assert nulls[..|nulls|] == nulls;
    }

    /** Splits the batch, sorts the commitments and applies everything in one transaction: the fields
        change only when it commits. */
    method ApplyBatch(events: seq<Event>, safe: int) returns (r: ApplyResult)
      modifies this
      ensures (Abs(), r) == BatchStep(old(Abs()), events, safe)
    {
      var next := NextLeafIndex();
      var a := AbsorbAll(commitments, next, BatchCommits(events));
      if !a.result.Applied? {
        return a.result;
      }
      var rows := InsertNulls(nullifiers, BatchNulls(events));
      commitments, nullifiers, cursor := a.table, rows, safe;
      return Applied;
    }

    method SetDeployLedger(n: int)
      modifies this`deploy
      ensures deploy == Some(n)
    {
      deploy := Some(n);
    }

    method SetGapState(g: bool)
      modifies this`gap
      ensures gap == g
    {
      gap := g;
    }
  }

  lemma NextIsUnique(t: map<nat, Row>, m: nat, n: nat)
    requires IsNext(t, m) && IsNext(t, n)
    ensures m == n
  {
  }
}
