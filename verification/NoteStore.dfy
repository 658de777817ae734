/** The wallet's note cache, the choice of notes for one spend, and the auto-split that moves an amount
    in several spends of two notes each. */
module NoteStore {
  import opened Basics
  import opened PaddedTree
  import opened WalletPlans
  import Circuit
  import SparseTree
  import VaultSpec

  predicate HasCommitment(notes: seq<Note>, c: F) {
    exists n :: n in notes && n.commitment == c
  }

  /** Appends the notes whose commitment is new, in order. */
  function Added(existing: seq<Note>, more: seq<Note>): seq<Note>
    decreases |more|
  {
    if more == [] then existing
    else Added(if HasCommitment(existing, more[0].commitment) then existing else existing + [more[0]], more[1..])
  }

  /** New notes with commitments not seen before are all appended. */
  lemma {:induction false} AddedFresh(existing: seq<Note>, more: seq<Note>)
    requires Distinct(more) && forall n :: n in more ==> !HasCommitment(existing, n.commitment)
    ensures Added(existing, more) == existing + more
    decreases |more|
  {
    if more == [] {
      assert existing + more == existing;
    } else {
      var head, tail := more[0], more[1..];
      assert forall k :: 0 <= k < |tail| ==> tail[k] == more[k + 1];
      assert head in more;
      AddedFresh(existing + [head], tail);
      assert existing + more == existing + [head] + tail;
    }
  }

  /** Everything offered is there afterwards, under its commitment, and nothing that was there is lost. */
  lemma {:induction false} AddedCovers(existing: seq<Note>, more: seq<Note>)
    ensures existing <= Added(existing, more)
    ensures forall n :: n in more ==> HasCommitment(Added(existing, more), n.commitment)
    decreases |more|
  {
    if more != [] {
      var head, tail := more[0], more[1..];
      var next := if HasCommitment(existing, head.commitment) then existing else existing + [head];
      assert HasCommitment(next, head.commitment) by {
        if next != existing { assert head in next; }
      }
      AddedCovers(next, tail);
      var n :| n in next && n.commitment == head.commitment;
      assert n in Added(next, tail);
      assert forall x :: x in more ==> x == head || x in tail;
    }
  }

  /** One note more is appended, unless its commitment is already there; nothing else is ever added. */
  lemma {:induction false} AddedOneMore(existing: seq<Note>, more: seq<Note>, n: Note)
    ensures var before := Added(existing, more);
      Added(existing, more + [n]) == if HasCommitment(before, n.commitment) then before else before + [n]
    ensures forall x :: x in Added(existing, more) ==> x in existing || x in more
    decreases |more|
  {
    if more == [] {
      assert more + [n] == [n] && [n][1..] == [];
    } else {
      assert (more + [n])[1..] == more[1..] + [n] && more == [more[0]] + more[1..];
      var next := if HasCommitment(existing, more[0].commitment) then existing else existing + [more[0]];
      AddedOneMore(next, more[1..], n);
    }
  }

  lemma {:induction false} AddedKnown(existing: seq<Note>, more: seq<Note>)
    requires forall n :: n in more ==> HasCommitment(existing, n.commitment)
    ensures Added(existing, more) == existing
    decreases |more|
  {
    if more != [] {
      assert more[0] in more && forall n :: n in more[1..] ==> n in more;
      AddedKnown(existing, more[1..]);
    }
  }

  /** A re-scan never adds a second copy. */
  lemma AddedTwice(existing: seq<Note>, more: seq<Note>)
    ensures Added(Added(existing, more), more) == Added(existing, more)
  {
    AddedCovers(existing, more);
    AddedKnown(Added(existing, more), more);
  }

  function Marked(notes: seq<Note>, targets: set<F>): (r: seq<Note>)
    ensures |r| == |notes|
    ensures forall k :: 0 <= k < |notes| ==>
              r[k] == if notes[k].commitment in targets then notes[k].(spent := true) else notes[k]
  {
    seq(|notes|, k requires 0 <= k < |notes| => if notes[k].commitment in targets then notes[k].(spent := true)
        else notes[k])
  }

  function Unspent(notes: seq<Note>): (r: seq<Note>)
    ensures forall n :: n in r <==> n in notes && !n.spent
  {
    if notes == [] then []
    else
      assert notes == [notes[0]] + notes[1..];
      (if notes[0].spent then [] else [notes[0]]) + Unspent(notes[1..])
  }

  function Balance(notes: seq<Note>): nat {
    SumNotes(Unspent(notes))
  }

  // ----- largest first

  predicate Descending(notes: seq<Note>) {
    forall i, j :: 0 <= i < j < |notes| ==> notes[i].amount >= notes[j].amount
  }

  function InsertByAmount(n: Note, notes: seq<Note>): (r: seq<Note>)
    requires Descending(notes)
    ensures forall x :: x in r <==> x == n || x in notes
    ensures |r| == |notes| + 1 && Descending(r)
  {
    if notes == [] || n.amount >= notes[0].amount then [n] + notes
    else
      assert forall k :: 0 <= k < |notes[1..]| ==> notes[1..][k] == notes[k + 1];
      var tail := InsertByAmount(n, notes[1..]);
      assert forall x :: x in notes <==> x == notes[0] || x in notes[1..];
      assert forall k :: 0 <= k < |tail| ==> tail[k] in tail;
      [notes[0]] + tail
  }

  function LargestFirst(notes: seq<Note>): (r: seq<Note>)
    ensures forall x :: x in r <==> x in notes
    ensures |r| == |notes| && Descending(r)
  {
    if notes == [] then []
    else
      assert forall x :: x in notes <==> x == notes[0] || x in notes[1..];
      InsertByAmount(notes[0], LargestFirst(notes[1..]))
  }

  lemma DescendingTail(head: Note, tail: seq<Note>)
    requires Descending([head] + tail)
    ensures Descending(tail) && forall x :: x in tail ==> head.amount >= x.amount
  {
    var s := [head] + tail;
    assert forall k :: 0 <= k < |tail| ==> tail[k] == s[k + 1];
    assert s[0] == head;
  }

  lemma InsertBehind(n: Note, head: Note, tail: seq<Note>)
    requires Descending([head] + tail) && Descending(tail) && n.amount < head.amount
    ensures InsertByAmount(n, [head] + tail) == [head] + InsertByAmount(n, tail)
  {
    assert ([head] + tail)[1..] == tail;
  }

  lemma {:induction false} InsertSum(n: Note, notes: seq<Note>)
    requires Descending(notes)
    ensures SumNotes(InsertByAmount(n, notes)) == n.amount + SumNotes(notes)
  {
    if notes == [] || n.amount >= notes[0].amount {
      assert InsertByAmount(n, notes)[1..] == notes;
    } else {
      var head, tail := notes[0], notes[1..];
      assert notes == [head] + tail;
      DescendingTail(head, tail);
      InsertSum(n, tail);
      InsertBehind(n, head, tail);
      assert ([head] + InsertByAmount(n, tail))[1..] == InsertByAmount(n, tail);
    }
  }

  lemma {:induction false} InsertDistinct(n: Note, notes: seq<Note>)
    requires Descending(notes) && Distinct(notes) && !HasCommitment(notes, n.commitment)
    ensures Distinct(InsertByAmount(n, notes))
  {
    if notes == [] || n.amount >= notes[0].amount {
      hide Descending;
      assert InsertByAmount(n, notes) == [n] + notes;
      forall k | 0 <= k < |notes| ensures notes[k].commitment != n.commitment {
        assert notes[k] in notes;
      }
    } else {
      var head, tail := notes[0], notes[1..];
      assert notes == [head] + tail;
      DescendingTail(head, tail);
      InsertBehind(n, head, tail);
      hide InsertByAmount, Descending;
      TailDistinct(head, tail, n.commitment);
      InsertDistinct(n, tail);
      ConsDistinct(head, InsertByAmount(n, tail), n, tail);
    }
  }

  lemma TailDistinct(head: Note, tail: seq<Note>, c: F)
    requires Distinct([head] + tail) && !HasCommitment([head] + tail, c)
    ensures Distinct(tail) && !HasCommitment(tail, c) && head.commitment != c
    ensures forall x :: x in tail ==> x.commitment != head.commitment
  {
    var notes := [head] + tail;
    assert notes[0] == head && forall k :: 0 <= k < |tail| ==> tail[k] == notes[k + 1];
    assert forall x :: x in notes <==> x == head || x in tail;
    assert head in notes;
  }

  lemma ConsDistinct(head: Note, all: seq<Note>, n: Note, tail: seq<Note>)
    requires Distinct(all) && head.commitment != n.commitment && forall x :: x in all <==> x == n || x in tail
    requires forall x :: x in tail ==> x.commitment != head.commitment
    ensures Distinct([head] + all)
  {
    forall k | 0 <= k < |all| ensures all[k].commitment != head.commitment {
      assert all[k] in all;
    }
  }

  /** Sorting keeps the total and distinctness. */
  lemma {:induction false} LargestFirstSum(notes: seq<Note>)
    ensures SumNotes(LargestFirst(notes)) == SumNotes(notes)
    ensures Distinct(notes) ==> Distinct(LargestFirst(notes))
  {
    if notes != [] {
      var tail := notes[1..];
      LargestFirstSum(tail);
      InsertSum(notes[0], LargestFirst(tail));
      if Distinct(notes) {
        assert forall k :: 0 <= k < |tail| ==> tail[k] == notes[k + 1];
        assert !HasCommitment(LargestFirst(tail), notes[0].commitment);
        InsertDistinct(notes[0], LargestFirst(tail));
      }
    }
  }

  function TopTwo(notes: seq<Note>): seq<Note> {
    var s := LargestFirst(Unspent(notes));
    if |s| <= 2 then s else s[..2]
  }

  function MaxSpendable(notes: seq<Note>): nat {
    SumNotes(TopTwo(notes))
  }

  /** What one spend can reach: no choice of one or two different unspent notes sums to more. */
  lemma TopTwoIsMost(notes: seq<Note>, a: Note, b: Note)
    requires Distinct(notes) && a in Unspent(notes) && b in Unspent(notes)
    ensures a.amount <= MaxSpendable(notes)
    ensures a.commitment != b.commitment ==> a.amount + b.amount <= MaxSpendable(notes)
  {
    var s := LargestFirst(Unspent(notes));
    var i :| 0 <= i < |s| && s[i] == a;
    var j :| 0 <= j < |s| && s[j] == b;
    SumTopTwo(notes);
  }

  lemma SumTopTwo(notes: seq<Note>)
    ensures var s := LargestFirst(Unspent(notes));
      MaxSpendable(notes) == (if |s| > 0 then s[0].amount else 0) + (if |s| > 1 then s[1].amount else 0)
  {
    var t := TopTwo(notes);
    if |t| == 1 {
      assert t[1..] == [];
    } else if |t| == 2 {
      assert t[1..] == [t[1]];
      assert [t[1]][1..] == [];
      assert SumNotes([t[1]]) == t[1].amount + SumNotes([]);
    }
  }

  // ----- choosing notes

  datatype Selection = Picked(notes: seq<Note>) | NotEnough | TooManyNotes

  /** Tries one note, then two. */
  method SelectNotes(store: seq<Note>, amount: int, fee: int) returns (r: Selection)
    ensures r.Picked? ==> 1 <= |r.notes| <= 2 && SumNotes(r.notes) >= amount + fee
    ensures r.Picked? ==> forall n :: n in r.notes ==> n in store && !n.spent
    ensures amount + fee > 0 ==> (r.Picked? <==> amount + fee <= MaxSpendable(store))
    ensures amount + fee > 0 && !r.Picked? ==> r == NotEnough
    ensures r.Picked? && |r.notes| == 2 && Distinct(store) ==> r.notes[0].commitment != r.notes[1].commitment
    ensures r.Picked? && |r.notes| == 2 ==> forall n :: n in store && !n.spent ==> n.amount < amount + fee
  {
    hide Unspent, LargestFirst, SumNotes, MaxSpendable, TopTwo;
    var need := amount + fee;
    var spendable := LargestFirst(Unspent(store));
    SumTopTwo(store);
    SortedUnspent(store);
    var count := 1;
    while count <= 2 && count <= |spendable|
      invariant 1 <= count <= 3 && count <= |spendable| + 1
      invariant forall c :: 1 <= c < count ==> SumNotes(spendable[..c]) < need
    {
      PrefixSums(spendable, 1);
      PrefixSums(spendable, count);
      if SumNotes(spendable[..count]) >= need {
        return Picked(spendable[..count]);
      }
      count := count + 1;
    }
    var most := if |spendable| <= 2 then |spendable| else 2;
    PrefixSums(spendable, most);
    if SumNotes(spendable[..most]) < need {
      return NotEnough;
    }
    return TooManyNotes;
  }

  lemma SortedUnspent(store: seq<Note>)
    ensures var s := LargestFirst(Unspent(store));
      && (forall n :: n in s <==> n in store && !n.spent)
      && (forall i :: 0 < i < |s| ==> s[0].amount >= s[i].amount)
      && (forall n :: n in store && !n.spent ==> |s| > 0 && n.amount <= s[0].amount)
      && (Distinct(store) ==> Distinct(s))
  {
    hide Unspent, LargestFirst, InsertByAmount, SumNotes;
    LargestFirstSum(Unspent(store));
    if Distinct(store) {
      UnspentDistinct(store);
    }
  }

  lemma PrefixSums(s: seq<Note>, c: nat)
    requires c <= 2 && c <= |s|
    ensures SumNotes(s[..c]) == (if c >= 1 then s[0].amount else 0) + if c == 2 then s[1].amount else 0
  {
    var p := s[..c];
    if c == 1 {
      assert p[1..] == [];
    } else if c == 2 {
      assert p[1..] == [s[1]];
      assert SumNotes([s[1]]) == s[1].amount;
    }
  }

  lemma {:induction false} UnspentDistinct(notes: seq<Note>)
    requires Distinct(notes)
    ensures Distinct(Unspent(notes))
  {
    if notes != [] {
      var tail := notes[1..];
      assert forall k :: 0 <= k < |tail| ==> tail[k] == notes[k + 1];
      UnspentDistinct(tail);
      var u := Unspent(tail);
      forall k | 0 <= k < |u| ensures u[k].commitment != notes[0].commitment {
        assert u[k] in u;
      }
    }
  }

  // ----- the store

  class Store {
    var notes: seq<Note>

    ghost predicate Valid()
      reads this
    {
      Distinct(notes)
    }

    constructor ()
      ensures Valid() && notes == []
    {
      notes := [];
    }

    /** Adds only notes whose commitment is not there yet, so a re-scan never adds a second copy. */
    method AddShieldedNotes(more: seq<Note>)
      requires Valid()
      modifies this
      ensures Valid() && notes == Added(old(notes), more)
    {
      var existing := notes;
      for k := 0 to |more|
        invariant Distinct(existing)
        invariant Added(existing, more[k..]) == Added(notes, more)
      {
        assert more[k..][0] == more[k] && more[k..][1..] == more[k + 1..];
        if !HasCommitment(existing, more[k].commitment) {
          forall i | 0 <= i < |existing| ensures existing[i].commitment != more[k].commitment {
            assert existing[i] in existing;
          }
          existing := existing + [more[k]];
        }
      }
      notes := existing;
    }

    method MarkShieldedSpent(commitments: seq<F>)
      requires Valid()
      modifies this
      ensures Valid() && notes == Marked(old(notes), set c | c in commitments)
      ensures |notes| == |old(notes)|
      ensures forall k :: 0 <= k < |notes| ==>
                && notes[k] == old(notes)[k].(spent := notes[k].spent)
                && (notes[k].spent <==> old(notes)[k].spent || notes[k].commitment in commitments)
    {
      var targets := set c | c in commitments;
      var updated := notes;
      for k := 0 to |notes|
        invariant |updated| == |notes|
        invariant forall j :: 0 <= j < k ==> updated[j] == Marked(notes, targets)[j]
        invariant forall j :: k <= j < |notes| ==> updated[j] == notes[j]
      {
        if updated[k].commitment in targets {
          updated := updated[k := updated[k].(spent := true)];
        }
      }
      notes := updated;
    }

    /** Adds the new notes before marking the inputs spent. */
    method PersistPlan(added: seq<Note>, spent: seq<F>)
      requires Valid()
      modifies this
      ensures Valid() && notes == Persisted(old(notes), added, set c | c in spent)
    {
      AddShieldedNotes(added);
      MarkShieldedSpent(spent);
    }

    /** One chunk of an auto-split whose submission succeeds: first the notes a scan found, then the spend. */
    method ShieldedSpendChunk(found: seq<Note>, remaining: int, fee: nat, change: Note) returns (r: Chunk)
      requires Valid()
      modifies this
      ensures Valid()
      ensures r == SpendChunk(Added(old(notes), found), remaining, fee, change)
      ensures notes == if r.Dust? then Added(old(notes), found) else r.notes
    {
      hide TopTwo, Added, SumNotes, Distinct, ChangeNotes;
      AddShieldedNotes(found);
      var picked := TopTwo(notes);
      if picked == [] || remaining <= 0 {
        return Chunk(notes, true, 0, 0, false);
      }
      var capacity := SumNotes(picked) - fee;
      if capacity <= 0 {
        return Dust;
      }
      var send := if capacity < remaining then capacity else remaining;
      SpentSet(picked);
      PersistPlan(ChangeNotes(capacity - send, change), CommitmentsOf(picked));
      var left := remaining - send;
      return Chunk(notes, left <= 0, left, send, true);
    }
  }

  function Persisted(notes: seq<Note>, added: seq<Note>, spent: set<F>): seq<Note> {
    Marked(Added(notes, added), spent)
  }

  lemma SpentSet(picked: seq<Note>)
    ensures (set c | c in CommitmentsOf(picked)) == set n | n in picked :: n.commitment
  {
    var spent := CommitmentsOf(picked);
    forall n | n in picked ensures n.commitment in spent {
      var k :| 0 <= k < |picked| && picked[k] == n;
      assert spent[k] == n.commitment;
    }
  }

  /** What a chunk persists is what the plan it submitted asks for: the change note, if any, and the
      commitments of the notes it picked. */
  lemma ChunkPersistsPlan(out: Outside, w: Wallet, cs: seq<SparseTree.Commitment>, picked: seq<Note>, send: nat,
                          to: Circuit.Point, toD: F, quote: nat, relayer: VaultSpec.Address, dummy: F, b0: F, b1: F)
    ensures var r := Withdraw(out, w, cs, picked, send, true, quote, relayer, dummy, b0, b1);
      r.Success? ==>
        var change := AddedNote(0, b0, w.d, r.value.proof.commitments[0]);
        && SumNotes(picked) - quote - send >= 0
        && r.value.added == ChangeNotes(SumNotes(picked) - quote - send, change)
        && (set c | c in r.value.spent) == (set n | n in picked :: n.commitment)
    ensures var r := TransferTo(out, w, cs, picked, send, to, toD, quote, relayer, dummy, b0, b1);
      r.Success? ==>
        var change := AddedNote(0, b1, w.d, r.value.proof.commitments[1]);
        && SumNotes(picked) - quote - send >= 0
        && r.value.added == ChangeNotes(SumNotes(picked) - quote - send, change)
        && (set c | c in r.value.spent) == (set n | n in picked :: n.commitment)
  {
    hide SpendInputsFor, SumNotes;
    SpentSet(picked);
  }

  // ----- auto-split

  datatype Chunk = Chunk(notes: seq<Note>, done: bool, remaining: int, sent: int, submitted: bool) | Dust

  function ChangeNotes(amount: int, template: Note): seq<Note>
    requires amount >= 0
  {
    if amount > 0 then [template.(amount := amount, spent := false)] else []
  }

  /** One chunk: the two largest unspent notes send as much as they can toward `remaining`; what is left
      of them comes back as a change note. */
  function SpendChunk(notes: seq<Note>, remaining: int, fee: nat, change: Note): Chunk {
    var picked := TopTwo(notes);
    if picked == [] || remaining <= 0 then Chunk(notes, true, 0, 0, false)
    else
      var capacity := SumNotes(picked) - fee;
      if capacity <= 0 then Dust
      else
        var send := Min(capacity, remaining);
        var left := remaining - send;
        Chunk(Persisted(notes, ChangeNotes(capacity - send, change), set n | n in picked :: n.commitment),
              left <= 0, left, send, true)
  }

  predicate FreshChange(notes: seq<Note>, change: Note) {
    !HasCommitment(notes, change.commitment)
  }

  lemma {:induction false} UnspentAppend(notes: seq<Note>, n: Note)
    ensures Unspent(notes + [n]) == Unspent(notes) + if n.spent then [] else [n]
  {
    if notes == [] {
      assert notes + [n] == [n];
      assert [n][1..] == [];
    } else {
      assert (notes + [n])[1..] == notes[1..] + [n];
      UnspentAppend(notes[1..], n);
    }
  }

  lemma {:induction false} SumAppend(notes: seq<Note>, n: Note)
    ensures SumNotes(notes + [n]) == SumNotes(notes) + n.amount
  {
    if notes == [] {
      assert notes + [n] == [n];
      assert [n][1..] == [];
    } else {
      assert (notes + [n])[1..] == notes[1..] + [n];
      SumAppend(notes[1..], n);
    }
  }

  lemma BalanceCons(head: Note, tail: seq<Note>)
    ensures Balance([head] + tail) == (if head.spent then 0 else head.amount) + Balance(tail)
    ensures |Unspent([head] + tail)| == (if head.spent then 0 else 1) + |Unspent(tail)|
  {
    assert ([head] + tail)[1..] == tail;
    if !head.spent {
      var u := [head] + Unspent(tail);
      assert Unspent([head] + tail) == u;
      assert u[1..] == Unspent(tail) && u[0] == head;
    } else {
      assert Unspent([head] + tail) == Unspent(tail);
    }
  }

  lemma MarkedCons(head: Note, tail: seq<Note>, c: F)
    ensures Marked([head] + tail, {c})
            == [if head.commitment == c then head.(spent := true) else head] + Marked(tail, {c})
  {
  }

  lemma MarkedAbsent(notes: seq<Note>, c: F)
    requires !HasCommitment(notes, c)
    ensures Marked(notes, {c}) == notes
  {
    forall k | 0 <= k < |notes| ensures notes[k].commitment != c {
      assert notes[k] in notes;
    }
  }

  lemma MarkedDistinct(notes: seq<Note>, targets: set<F>)
    requires Distinct(notes)
    ensures Distinct(Marked(notes, targets))
  {
  }

  lemma DistinctTail(head: Note, tail: seq<Note>)
    requires Distinct([head] + tail)
    ensures Distinct(tail) && !HasCommitment(tail, head.commitment)
  {
    var all := [head] + tail;
    assert forall k :: 0 <= k < |tail| ==> tail[k] == all[k + 1];
    assert all[0] == head;
  }

  /** Marking one unspent note takes exactly its amount and one note out of the unspent ones. */
  lemma {:induction false} MarkOne(notes: seq<Note>, n: Note)
    requires Distinct(notes) && n in notes && !n.spent
    ensures Balance(Marked(notes, {n.commitment})) == Balance(notes) - n.amount
    ensures |Unspent(Marked(notes, {n.commitment}))| == |Unspent(notes)| - 1
  {
    hide Balance, Unspent, Marked, Distinct;
    var head, tail := notes[0], notes[1..];
    assert notes == [head] + tail;
    DistinctTail(head, tail);
    MarkedCons(head, tail, n.commitment);
    BalanceCons(head, tail);
    if head == n {
      MarkedAbsent(tail, n.commitment);
      BalanceCons(head.(spent := true), tail);
    } else {
      assert n in tail;
      assert head.commitment != n.commitment;
      MarkOne(tail, n);
      BalanceCons(head, Marked(tail, {n.commitment}));
    }
  }

  lemma MarkTwice(notes: seq<Note>, c: F, d: F)
    ensures Marked(Marked(notes, {c}), {d}) == Marked(notes, {c, d})
  {
  }

  /** Marking the picked notes takes exactly their total and their number. */
  lemma MarkPicked(notes: seq<Note>, picked: seq<Note>)
    requires Distinct(notes) && 1 <= |picked| <= 2 && Distinct(picked)
    requires forall n :: n in picked ==> n in notes && !n.spent
    ensures var m := Marked(notes, set n | n in picked :: n.commitment);
      Balance(m) == Balance(notes) - SumNotes(picked) && |Unspent(m)| == |Unspent(notes)| - |picked|
  {
    hide Balance, Unspent, Marked, SumNotes;
    var a := picked[0];
    assert a in picked;
    MarkOne(notes, a);
    PrefixSums(picked, |picked|);
    assert picked[..|picked|] == picked;
    if |picked| == 1 {
      assert (set n | n in picked :: n.commitment) == {a.commitment};
    } else {
      var b := picked[1];
      assert b in picked;
      MarkedDistinct(notes, {a.commitment});
      MarkedKeeps(notes, a.commitment, b);
      MarkOne(Marked(notes, {a.commitment}), b);
      MarkTwice(notes, a.commitment, b.commitment);
      assert (set n | n in picked :: n.commitment) == {a.commitment, b.commitment};
    }
  }

  lemma MarkedKeeps(notes: seq<Note>, c: F, b: Note)
    requires b in notes && b.commitment != c
    ensures b in Marked(notes, {c})
  {
    var k :| 0 <= k < |notes| && notes[k] == b;
    assert Marked(notes, {c})[k] == b;
  }

  lemma TopTwoFacts(notes: seq<Note>)
    requires Distinct(notes)
    ensures var t := TopTwo(notes);
      |t| <= 2 && Distinct(t) && (forall n :: n in t ==> n in notes && !n.spent) && (t == [] <==> Unspent(notes) == [])
      && |t| == if |Unspent(notes)| < 2 then |Unspent(notes)| else 2
  {
    hide Unspent, LargestFirst, InsertByAmount, SumNotes;
    UnspentDistinct(notes);
    LargestFirstSum(Unspent(notes));
    var s := LargestFirst(Unspent(notes));
    assert forall n :: n in TopTwo(notes) ==> n in s;
  }

  /** Accounting of one chunk: it lowers the balance by exactly what it sent plus the fee, and either
      completes the request or leaves no change and uses up every note it picked. */
  lemma ChunkAccounting(notes: seq<Note>, remaining: int, fee: nat, change: Note)
    requires Distinct(notes) && FreshChange(notes, change) && SpendChunk(notes, remaining, fee, change).Chunk?
    ensures var c := SpendChunk(notes, remaining, fee, change);
      && Distinct(c.notes)
      && (c.submitted ==>
            && TopTwo(notes) != [] && 0 < c.sent <= remaining && c.remaining == remaining - c.sent
            && Balance(c.notes) == Balance(notes) - c.sent - fee
            && (c.done <==> c.sent == remaining)
            && (!c.done ==> |Unspent(c.notes)| == |Unspent(notes)| - |TopTwo(notes)|))
      && (!c.submitted ==> c.notes == notes && c.done && c.sent == 0 && (remaining <= 0 || Unspent(notes) == []))
  {
    hide Balance, TopTwo, Unspent, SumNotes, Marked, Added, Distinct, ChangeNotes;
    TopTwoFacts(notes);
    var c := SpendChunk(notes, remaining, fee, change);
    if c.submitted {
      var picked := TopTwo(notes);
      var left := SumNotes(picked) - fee - c.sent;
      var all := Added(notes, ChangeNotes(left, change));
      ChangeAdded(notes, left, change);
      MarkPicked(all, picked);
      MarkedDistinct(all, set n | n in picked :: n.commitment);
    }
  }

  lemma ChangeAdded(notes: seq<Note>, left: nat, change: Note)
    requires Distinct(notes) && FreshChange(notes, change)
    ensures var all := Added(notes, ChangeNotes(left, change));
      && all == notes + ChangeNotes(left, change)
      && Distinct(all) && Balance(all) == Balance(notes) + left
      && |Unspent(all)| == |Unspent(notes)| + (if left > 0 then 1 else 0)
      && forall n :: n in notes ==> n in all
  {
    if left > 0 {
      var n := change.(amount := left, spent := false);
      assert [n][1..] == [];
      assert Added(notes, [n]) == notes + [n];
      hide Added, Unspent, SumNotes, HasCommitment;
      forall i | 0 <= i < |notes| ensures notes[i].commitment != n.commitment {
        assert notes[i] in notes;
      }
      UnspentAppend(notes, n);
      SumAppend(Unspent(notes), n);
    }
  }

  datatype Ending = Completed | RanOut | StoppedAtDust

  datatype Run = Run(notes: seq<Note>, sent: int, chunks: nat, ending: Ending)

  ghost predicate FreshForever(notes: seq<Note>, changes: nat -> Note, from: nat) {
    && (forall k: nat :: from <= k ==> FreshChange(notes, changes(k)))
    && (forall j: nat, k: nat :: from <= j < k ==> changes(j).commitment != changes(k).commitment)
  }

  lemma ChunkKeepsFresh(notes: seq<Note>, remaining: int, fee: nat, changes: nat -> Note, k: nat)
    requires Distinct(notes) && FreshForever(notes, changes, k) && SpendChunk(notes, remaining, fee, changes(k)).Chunk?
    ensures FreshForever(SpendChunk(notes, remaining, fee, changes(k)).notes, changes, k + 1)
  {
    hide TopTwo, Added, SumNotes, Unspent, Balance;
    var c := SpendChunk(notes, remaining, fee, changes(k));
    if c.submitted {
      var left := SumNotes(TopTwo(notes)) - fee - c.sent;
      ChangeAdded(notes, left, changes(k));
      var all := notes + ChangeNotes(left, changes(k));
      forall j: nat | k + 1 <= j ensures FreshChange(c.notes, changes(j)) {
        assert FreshChange(notes, changes(j));
        forall n | n in c.notes ensures n.commitment != changes(j).commitment {
          var i :| 0 <= i < |c.notes| && c.notes[i] == n;
          assert all[i].commitment == n.commitment && all[i] in all;
        }
      }
    }
  }

  /** The loop over chunks, with a constant fee, no incoming notes and successful submissions. */
  ghost function Drive(notes: seq<Note>, remaining: int, fee: nat, changes: nat -> Note, k: nat): Run
    requires Distinct(notes) && FreshForever(notes, changes, k)
    decreases |Unspent(notes)|
  {
    var c := SpendChunk(notes, remaining, fee, changes(k));
    if c.Dust? then Run(notes, 0, 0, StoppedAtDust)
    else
      ChunkAccounting(notes, remaining, fee, changes(k));
      ChunkKeepsFresh(notes, remaining, fee, changes, k);
      TopTwoFacts(notes);
      if !c.submitted then Run(c.notes, 0, 0, if remaining <= 0 then Completed else RanOut)
      else if c.done then Run(c.notes, c.sent, 1, Completed)
      else
        var r := Drive(c.notes, c.remaining, fee, changes, k + 1);
        Run(r.notes, c.sent + r.sent, 1 + r.chunks, r.ending)
  }

  lemma FirstIsFresh(notes: seq<Note>, changes: nat -> Note, k: nat)
    requires FreshForever(notes, changes, k)
    ensures FreshChange(notes, changes(k))
  {
  }

  lemma DriveEnds(notes: seq<Note>, remaining: int, fee: nat, changes: nat -> Note, k: nat)
    requires Distinct(notes) && FreshForever(notes, changes, k)
    requires var c := SpendChunk(notes, remaining, fee, changes(k)); c.Chunk? ==> !c.submitted || c.done
    ensures var c, r := SpendChunk(notes, remaining, fee, changes(k)), Drive(notes, remaining, fee, changes, k);
      && (c.Dust? ==> r == Run(notes, 0, 0, StoppedAtDust))
      && (c.Chunk? && !c.submitted ==> r == Run(c.notes, 0, 0, if remaining <= 0 then Completed else RanOut))
      && (c.Chunk? && c.submitted ==> r == Run(c.notes, c.sent, 1, Completed))
  {
    hide SpendChunk, Unspent, Distinct, FreshForever, FreshChange;
  }

  lemma DriveGoesOn(notes: seq<Note>, remaining: int, fee: nat, changes: nat -> Note, k: nat)
    requires Distinct(notes) && FreshForever(notes, changes, k)
    requires var c := SpendChunk(notes, remaining, fee, changes(k)); c.Chunk? && c.submitted && !c.done
    ensures var c := SpendChunk(notes, remaining, fee, changes(k));
      && Distinct(c.notes) && FreshForever(c.notes, changes, k + 1) && |Unspent(c.notes)| < |Unspent(notes)|
      && c.remaining == remaining - c.sent && c.remaining > 0
    ensures var c := SpendChunk(notes, remaining, fee, changes(k));
      var r := Drive(c.notes, c.remaining, fee, changes, k + 1);
      Drive(notes, remaining, fee, changes, k) == Run(r.notes, c.sent + r.sent, 1 + r.chunks, r.ending)
  {
    hide SpendChunk, Unspent, Distinct, FreshForever, FreshChange, Balance, TopTwo, SumNotes, Marked, Added,
         LargestFirst;
    FirstIsFresh(notes, changes, k);
    ChunkKeepsFresh(notes, remaining, fee, changes, k);
    ChunkAccounting(notes, remaining, fee, changes(k));
    TopTwoFacts(notes);
  }

  /** Auto-split over the whole loop: nothing beyond the request is sent, the balance drops by exactly
      what was sent plus one fee per chunk, at most half the notes (rounded up) are needed as chunks, and
      reporting done means fully sent unless the notes ran out first. */
  lemma {:induction false} DriveAccounting(notes: seq<Note>, remaining: int, fee: nat, changes: nat -> Note, k: nat)
    requires Distinct(notes) && FreshForever(notes, changes, k) && remaining > 0
    ensures var r := Drive(notes, remaining, fee, changes, k);
      && 0 <= r.sent <= remaining
      && Balance(r.notes) == Balance(notes) - r.sent - r.chunks * fee
      && r.chunks <= (|Unspent(notes)| + 1) / 2
      && (r.ending.Completed? <==> r.sent == remaining)
      && (r.ending.RanOut? ==> Unspent(r.notes) == [])
      && (r.ending.StoppedAtDust? ==> MaxSpendable(r.notes) <= fee)
    decreases |Unspent(notes)|
  {
    hide Drive, FreshForever, FreshChange, Balance, MaxSpendable, SpendChunk, Unspent, TopTwo, Distinct;
    var c := SpendChunk(notes, remaining, fee, changes(k));
    if c.Dust? {
      DustIsSmall(notes, remaining, fee, changes(k));
      DriveEnds(notes, remaining, fee, changes, k);
    } else {
      FirstIsFresh(notes, changes, k);
      ChunkAccounting(notes, remaining, fee, changes(k));
      TopTwoFacts(notes);
      if c.submitted && !c.done {
        DriveGoesOn(notes, remaining, fee, changes, k);
        DriveAccounting(c.notes, c.remaining, fee, changes, k + 1);
        var r := Drive(c.notes, c.remaining, fee, changes, k + 1);
        assert (1 + r.chunks) * fee == fee + r.chunks * fee;
        if |Unspent(notes)| == 1 {
          LastNote(c.notes, c.remaining, fee, changes, k + 1);
        }
      } else {
        DriveEnds(notes, remaining, fee, changes, k);
      }
    }
  }

  // ----- what the whole loop can send

  function PairSize(s: seq<Note>): nat {
    if |s| < 2 then |s| else 2
  }

  function PairCapacity(s: seq<Note>, fee: nat): int {
    SumNotes(s[..PairSize(s)]) - fee
  }

  /** Pair after pair of the sorted notes, each less one fee, up to the first pair that does not exceed it. */
  function Reach(s: seq<Note>, fee: nat): nat
    decreases |s|
  {
    if s == [] || PairCapacity(s, fee) <= 0 then 0 else PairCapacity(s, fee) + Reach(s[PairSize(s)..], fee)
  }

  /** Some pair, reached in that order, does not exceed the fee. */
  predicate Dusty(s: seq<Note>, fee: nat)
    decreases |s|
  {
    s != [] && (PairCapacity(s, fee) <= 0 || Dusty(s[PairSize(s)..], fee))
  }

  function Keep(notes: seq<Note>, gone: set<F>): (r: seq<Note>)
    ensures forall n :: n in r <==> n in notes && n.commitment !in gone
  {
    if notes == [] then []
    else
      assert notes == [notes[0]] + notes[1..];
      (if notes[0].commitment in gone then [] else [notes[0]]) + Keep(notes[1..], gone)
  }

  lemma {:induction false} UnspentMarked(notes: seq<Note>, gone: set<F>)
    ensures Unspent(Marked(notes, gone)) == Keep(Unspent(notes), gone)
  {
    if notes != [] {
      var head, tail := notes[0], notes[1..];
      UnspentMarked(tail, gone);
      assert Marked(notes, gone)[1..] == Marked(tail, gone);
      if !head.spent {
        assert Unspent(notes)[1..] == Unspent(tail);
      } else {
        assert Unspent(notes) == Unspent(tail);
      }
    }
  }

  lemma {:induction false} KeepDescending(s: seq<Note>, gone: set<F>)
    requires Descending(s)
    ensures Descending(Keep(s, gone))
  {
    if s != [] {
      var tail := s[1..];
      assert forall k :: 0 <= k < |tail| ==> tail[k] == s[k + 1];
      KeepDescending(tail, gone);
      var r := Keep(tail, gone);
      forall k | 0 <= k < |r| ensures s[0].amount >= r[k].amount {
        assert r[k] in tail;
      }
    }
  }

  lemma InsertFront(n: Note, s: seq<Note>)
    requires Descending(s) && forall x :: x in s ==> n.amount >= x.amount
    ensures InsertByAmount(n, s) == [n] + s
  {
  }

  lemma KeepCons(head: Note, tail: seq<Note>, gone: set<F>)
    ensures Keep([head] + tail, gone) == (if head.commitment in gone then [] else [head]) + Keep(tail, gone)
  {
    assert ([head] + tail)[1..] == tail;
  }

  lemma KeepInsertFront(n: Note, s: seq<Note>, gone: set<F>)
    requires Descending(s) && forall x :: x in s ==> n.amount >= x.amount
    requires Descending(Keep(s, gone))
    ensures Keep(InsertByAmount(n, s), gone) ==
              if n.commitment in gone then Keep(s, gone) else InsertByAmount(n, Keep(s, gone))
  {
    InsertFront(n, s);
    InsertFront(n, Keep(s, gone));
    hide Keep, InsertByAmount, Descending;
    KeepCons(n, s, gone);
    assert [] + Keep(s, gone) == Keep(s, gone);
  }

  lemma KeepInsertBehind(n: Note, head: Note, tail: seq<Note>, gone: set<F>)
    requires Descending([head] + tail) && Descending(tail) && n.amount < head.amount && Descending(Keep(tail, gone))
    requires Keep(InsertByAmount(n, tail), gone) ==
               if n.commitment in gone then Keep(tail, gone) else InsertByAmount(n, Keep(tail, gone))
    requires Descending(Keep([head] + tail, gone))
    ensures Keep(InsertByAmount(n, [head] + tail), gone) ==
              if n.commitment in gone then Keep([head] + tail, gone) else InsertByAmount(n, Keep([head] + tail, gone))
  {
    hide Keep, InsertByAmount, Descending;
    InsertBehind(n, head, tail);
    KeepCons(head, tail, gone);
    KeepCons(head, InsertByAmount(n, tail), gone);
    if head.commitment in gone {
      assert [] + Keep(tail, gone) == Keep(tail, gone);
      assert [] + Keep(InsertByAmount(n, tail), gone) == Keep(InsertByAmount(n, tail), gone);
    } else if n.commitment !in gone {
      InsertBehind(n, head, Keep(tail, gone));
    }
  }

  lemma {:induction false} KeepInsert(n: Note, s: seq<Note>, gone: set<F>)
    requires Descending(s)
    ensures Descending(Keep(s, gone))
    ensures Keep(InsertByAmount(n, s), gone) ==
              if n.commitment in gone then Keep(s, gone) else InsertByAmount(n, Keep(s, gone))
  {
    hide Keep, InsertByAmount, Descending;
    KeepDescending(s, gone);
    HeadIsLargest(s);
    if s == [] || n.amount >= s[0].amount {
      KeepInsertFront(n, s, gone);
    } else {
      var head, tail := s[0], s[1..];
      assert s == [head] + tail;
      DescendingTail(head, tail);
      KeepInsert(n, tail, gone);
      KeepInsertBehind(n, head, tail, gone);
    }
  }

  lemma HeadIsLargest(s: seq<Note>)
    requires Descending(s)
    ensures s != [] ==> forall x :: x in s ==> s[0].amount >= x.amount
  {
  }

  lemma SortCons(head: Note, tail: seq<Note>)
    ensures LargestFirst([head] + tail) == InsertByAmount(head, LargestFirst(tail))
  {
    assert ([head] + tail)[1..] == tail;
  }

  /** Sorting and filtering commute. */
  lemma {:induction false} KeepSorts(notes: seq<Note>, gone: set<F>)
    ensures LargestFirst(Keep(notes, gone)) == Keep(LargestFirst(notes), gone)
  {
    if notes != [] {
      hide Keep, LargestFirst, InsertByAmount;
      var head, tail := notes[0], notes[1..];
      assert notes == [head] + tail;
      KeepSorts(tail, gone);
      KeepCons(head, tail, gone);
      SortCons(head, tail);
      KeepInsert(head, LargestFirst(tail), gone);
      if head.commitment in gone {
        assert [] + Keep(tail, gone) == Keep(tail, gone);
      } else {
        SortCons(head, Keep(tail, gone));
      }
    }
  }

  lemma {:induction false} KeepAll(s: seq<Note>, gone: set<F>)
    requires forall n :: n in s ==> n.commitment !in gone
    ensures Keep(s, gone) == s
  {
    if s != [] {
      assert s[0] in s && forall n :: n in s[1..] ==> n in s;
      KeepAll(s[1..], gone);
    }
  }

  lemma {:induction false} KeepRest(s: seq<Note>, p: nat, gone: set<F>)
    requires Distinct(s) && p <= |s|
    requires forall k :: 0 <= k < |s| ==> (s[k].commitment in gone <==> k < p)
    ensures Keep(s, gone) == s[p..]
  {
    if p == 0 {
      KeepAll(s, gone);
    } else {
      var tail := s[1..];
      assert forall k :: 0 <= k < |tail| ==> tail[k] == s[k + 1];
      KeepRest(tail, p - 1, gone);
      assert tail[p - 1..] == s[p..];
    }
  }

  lemma TopTwoIsPair(notes: seq<Note>)
    ensures var s := LargestFirst(Unspent(notes));
      TopTwo(notes) == s[..PairSize(s)]
  {
    var s := LargestFirst(Unspent(notes));
    assert s[..|s|] == s;
  }

  lemma KeepWithoutFirst(s: seq<Note>, p: nat, picked: seq<Note>)
    requires Distinct(s) && p <= |s| && picked == s[..p]
    ensures Keep(s, set n | n in picked :: n.commitment) == s[p..]
  {
    hide Keep;
    var gone := set n | n in picked :: n.commitment;
    forall k | 0 <= k < |s| ensures s[k].commitment in gone <==> k < p {
      if k < p {
        assert picked[k] in picked;
      } else {
        forall n | n in picked ensures n.commitment != s[k].commitment {
          var j :| 0 <= j < |picked| && picked[j] == n;
        }
      }
    }
    KeepRest(s, p, gone);
  }

  lemma ChunkMarks(notes: seq<Note>, remaining: int, fee: nat, change: Note)
    requires var c := SpendChunk(notes, remaining, fee, change); c.Chunk? && c.submitted && !c.done
    ensures SpendChunk(notes, remaining, fee, change).notes == Marked(notes, set n | n in TopTwo(notes) :: n.commitment)
  {
    hide Marked, TopTwo, SumNotes;
    assert Added(notes, []) == notes;
  }

  /** A chunk that does not complete the request leaves exactly the notes behind the pair it used. */
  lemma ChunkLeaves(notes: seq<Note>, remaining: int, fee: nat, change: Note)
    requires Distinct(notes)
    requires var c := SpendChunk(notes, remaining, fee, change); c.Chunk? && c.submitted && !c.done
    ensures var s := LargestFirst(Unspent(notes));
      LargestFirst(Unspent(SpendChunk(notes, remaining, fee, change).notes)) == s[PairSize(s)..]
  {
    hide SpendChunk, Marked, Unspent, LargestFirst, TopTwo, Keep, Distinct;
    var s, gone := LargestFirst(Unspent(notes)), set n | n in TopTwo(notes) :: n.commitment;
    ChunkMarks(notes, remaining, fee, change);
    UnspentMarked(notes, gone);
    KeepSorts(Unspent(notes), gone);
    SortedUnspent(notes);
    TopTwoIsPair(notes);
    KeepWithoutFirst(s, PairSize(s), TopTwo(notes));
  }

  lemma ReachStep(s: seq<Note>, fee: nat)
    ensures s == [] ==> Reach(s, fee) == 0 && !Dusty(s, fee)
    ensures s != [] && PairCapacity(s, fee) <= 0 ==> Reach(s, fee) == 0 && Dusty(s, fee)
    ensures s != [] && PairCapacity(s, fee) > 0 ==>
              && Reach(s, fee) == PairCapacity(s, fee) + Reach(s[PairSize(s)..], fee)
              && (Dusty(s, fee) <==> Dusty(s[PairSize(s)..], fee))
  {
    hide SumNotes;
  }

  /** Exactly how much the loop sends and how it ends: the request or what the sorted notes can reach pair
      by pair, whichever is less. It completes if and only if the request is within reach; otherwise it
      ends at the first pair that does not exceed the fee, or with no note left. */
  lemma {:induction false} DriveSends(notes: seq<Note>, remaining: int, fee: nat, changes: nat -> Note, k: nat)
    requires Distinct(notes) && FreshForever(notes, changes, k) && remaining > 0
    ensures var r, s := Drive(notes, remaining, fee, changes, k), LargestFirst(Unspent(notes));
      && r.sent == Min(remaining, Reach(s, fee))
      && (r.ending.Completed? <==> remaining <= Reach(s, fee))
      && (r.ending.StoppedAtDust? <==> Reach(s, fee) < remaining && Dusty(s, fee))
      && (r.ending.RanOut? <==> Reach(s, fee) < remaining && !Dusty(s, fee))
    decreases |Unspent(notes)|
  {
    hide Drive, Reach, Dusty, FreshForever, FreshChange, SpendChunk, PairCapacity, PairSize, LargestFirst, Unspent,
         Distinct;
    var c := SpendChunk(notes, remaining, fee, changes(k));
    ChunkByPair(notes, remaining, fee, changes(k));
    ReachStep(LargestFirst(Unspent(notes)), fee);
    if c.Chunk? && c.submitted && !c.done {
      DriveGoesOn(notes, remaining, fee, changes, k);
      ChunkLeaves(notes, remaining, fee, changes(k));
      DriveSends(c.notes, c.remaining, fee, changes, k + 1);
    } else {
      DriveEnds(notes, remaining, fee, changes, k);
    }
  }

  /** One chunk in terms of the sorted notes. */
  lemma ChunkByPair(notes: seq<Note>, remaining: int, fee: nat, change: Note)
    requires remaining > 0
    ensures var c, s := SpendChunk(notes, remaining, fee, change), LargestFirst(Unspent(notes));
      && (c.Dust? <==> s != [] && PairCapacity(s, fee) <= 0)
      && (c.Chunk? ==> (c.submitted <==> s != []))
      && (c.Chunk? && c.submitted ==>
            && c.sent == Min(PairCapacity(s, fee), remaining) && (c.done <==> remaining <= PairCapacity(s, fee)))
  {
    TopTwoIsPair(notes);
    hide LargestFirst, Unspent, TopTwo, Persisted;
  }

  /** Done without everything sent: one note of 5 at a fee of 1 sends 4 of the 10 asked for, and the loop ends
      because no note is left. */
  lemma DoneIsNotAllSent()
    ensures var notes, changes := [Note(5, 0, 0, 7, 0, false)], (k: nat) => Note(0, 0, 0, 100 + k, -1, false);
      && Distinct(notes) && FreshForever(notes, changes, 0)
      && Drive(notes, 10, 1, changes, 0).sent == 4 && Drive(notes, 10, 1, changes, 0).ending == RanOut
  {
    var n := Note(5, 0, 0, 7, 0, false);
    var notes, changes := [n], (k: nat) => Note(0, 0, 0, 100 + k, -1, false);
    forall k: nat ensures FreshChange(notes, changes(k)) {
    }
    OneNote(n);
    DriveSends(notes, 10, 1, changes, 0);
  }

  lemma OneNote(n: Note)
    requires !n.spent && n.amount > 1
    ensures LargestFirst(Unspent([n])) == [n] && Reach([n], 1) == n.amount - 1 && !Dusty([n], 1)
  {
    assert [n][1..] == [] && [n][..1] == [n];
    assert SumNotes([n]) == n.amount;
    assert Unspent([n]) == [n];
    assert LargestFirst([n]) == InsertByAmount(n, LargestFirst([]));
    assert Reach([], 1) == 0 && !Dusty([], 1);
  }

  lemma DustIsSmall(notes: seq<Note>, remaining: int, fee: nat, change: Note)
    requires SpendChunk(notes, remaining, fee, change).Dust?
    ensures MaxSpendable(notes) <= fee
  {
  }

  lemma LastNote(notes: seq<Note>, remaining: int, fee: nat, changes: nat -> Note, k: nat)
    requires Distinct(notes) && FreshForever(notes, changes, k) && Unspent(notes) == []
    ensures Drive(notes, remaining, fee, changes, k).chunks == 0
  {
    TopTwoFacts(notes);
  }
}
