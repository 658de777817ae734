/** Solvency over whole runs: the notes nobody has spent yet add up to the TVL the vault holds.

    Nothing is assumed about hashes in general. A transcript lists the hash inputs that occur in the
    run (tree nodes, path folds, note openings, nullifiers, owner keys), and the theorem speaks about
    runs whose transcript shows no collision. */
module Solvency {
  import opened Basics
  import opened PaddedTree
  import opened MerklePath
  import opened Field
  import opened Circuit
  import opened VaultSpec
  import opened VaultRuns
  import FrontierTree

  /** The opening of a commitment: amount, folded transmission key, blinding. */
  datatype Opening = Opening(amount: F, owner: F, blinding: F)

  function Commitment(pr: Primitives, n: Opening): F {
    pr.hash3(n.amount, n.owner, n.blinding, 0x01)
  }

  /** Hash inputs of a run: child pairs, note openings, nullifier inputs, and the pairs of folded
      transmission key and folded nullifier key that go together. */
  datatype Transcript = Transcript(pairs: iset<(F, F)>, notes: iset<Opening>, spends: iset<(F, nat, F)>,
                                   owners: iset<(F, F)>)

  /** No collision among the listed inputs, no listed note hashes to the empty leaf, and one
      transmission key does not go with two nullifier keys. */
  ghost predicate NoCollision(pr: Primitives, q: Transcript) {
    && CollisionFree(pr.compress, q.pairs)
    && (forall a, b | a in q.notes && b in q.notes :: Commitment(pr, a) == Commitment(pr, b) ==> a == b)
    && (forall a | a in q.notes :: Commitment(pr, a) != 0)
    && (forall a, b | a in q.spends && b in q.spends ::
        Nullifier(pr, a.0, a.1, a.2) == Nullifier(pr, b.0, b.1, b.2) ==> a == b)
    && (forall a, b | a in q.owners && b in q.owners :: a.0 == b.0 ==> a.1 == b.1)
  }

  function InputNote(pr: Primitives, w: InputWitness): Opening {
    Opening(w.amount, FoldPoint(pr, InputPkD(pr, w), 0x05), w.blinding)
  }

  function OutputNote(pr: Primitives, w: OutputWitness): Opening {
    Opening(w.amount, FoldPoint(pr, w.pubkey, 0x05), w.blinding)
  }

  ghost predicate InputListed(pr: Primitives, q: Transcript, w: InputWitness) {
    && InputNote(pr, w) in q.notes
    && (InputNote(pr, w).owner, NkFold(pr, w.keys.nsk)) in q.owners
    && (InputCommitment(pr, w), w.pathIndices, NkFold(pr, w.keys.nsk)) in q.spends
    && FoldAsked(pr.compress, InputCommitment(pr, w), w.pathElements, w.pathIndices, q.pairs)
  }

  ghost predicate Listed(pr: Primitives, q: Transcript, w: Witness) {
    && InputListed(pr, q, w.in0) && InputListed(pr, q, w.in1)
    && OutputNote(pr, w.out0) in q.notes && OutputNote(pr, w.out1) in q.notes
  }

  ghost predicate TreesListed(pr: Primitives, q: Transcript, leaves: seq<F>) {
    forall m: nat :: m <= |leaves| ==> TreeAsked(pr.compress, Indexed(leaves[..m]), DEPTH, q.pairs)
  }

  function PublicOf(proof: TxProof, domain: F): Public
    requires |proof.inputNullifiers| == 2 == |proof.outputCommitments|
  {
    Public(proof.root, proof.publicAmount, proof.extDataHash, domain,
           proof.inputNullifiers[0], proof.inputNullifiers[1],
           proof.outputCommitments[0], proof.outputCommitments[1])
  }

  /** What the proof system gives: a proof that checks for some public inputs comes with a witness that
      satisfies the circuit for them. */
  ghost predicate Extracted(host: Host, points: Groth16Proof, signals: seq<F>, w: Witness) {
    Verified(host, points, signals) ==> Satisfies(host.pr, FromSignals(signals), w)
  }

  /** The signals an accepted call was checked for. */
  function StepSignals(s: State, step: Step): seq<F>
    requires s.config.Some? && step.Call?
  {
    PublicInputs(step.proof, s.config.value.domain)
  }

  /** An accepted call comes with a witness, and everything hashed is listed. */
  ghost predicate Witnessed(host: Host, q: Transcript, s: State, step: Step, w: Witness) {
    && TreesListed(host.pr, q, After(host, s, step).leaves)
    && (Accepted(host, s, step) && s.config.Some? ==>
          Extracted(host, step.proof.points, StepSignals(s, step), w) && Listed(host.pr, q, w))
  }

  /** One step of a run: such a call, made by others, that lists two nullifiers. */
  ghost predicate Backed(host: Host, q: Transcript, s: State, step: Step, w: Witness) {
    && FromOthers(host, step)
    && Witnessed(host, q, s, step, w)
    && (Accepted(host, s, step) ==> |step.proof.inputNullifiers| == 2)
  }

  // ----- what one satisfied circuit says about notes

  /** A note used as an input, at a tree position, with the owner's folded nullifier key. */
  datatype Used = Used(note: Opening, position: nat, nkFold: F)

  datatype JoinSplit = JoinSplit(in0: Used, in1: Used, out0: Opening, out1: Opening)

  ghost predicate UsedOk(pr: Primitives, q: Transcript, leaves: seq<F>, nullifier: F, u: Used) {
    && u.note in q.notes && (u.note.owner, u.nkFold) in q.owners
    && (Commitment(pr, u.note), u.position, u.nkFold) in q.spends
    && nullifier == Nullifier(pr, Commitment(pr, u.note), u.position, u.nkFold)
    && (u.note.amount != 0 ==> u.position < |leaves| && leaves[u.position] == Commitment(pr, u.note))
  }

  ghost predicate JoinSplitOk(pr: Primitives, q: Transcript, leaves: seq<F>, pub: Public, signed: int, j: JoinSplit) {
    && UsedOk(pr, q, leaves, pub.null0, j.in0) && UsedOk(pr, q, leaves, pub.null1, j.in1)
    && pub.null0 != pub.null1
    && j.out0 in q.notes && Commitment(pr, j.out0) == pub.comm0
    && j.out1 in q.notes && Commitment(pr, j.out1) == pub.comm1
    && j.in0.note.amount + j.in1.note.amount + signed == j.out0.amount + j.out1.amount
  }

  function UsedOf(pr: Primitives, w: InputWitness): Used {
    Used(InputNote(pr, w), w.pathIndices, NkFold(pr, w.keys.nsk))
  }

  function JoinSplitOf(pr: Primitives, w: Witness): JoinSplit {
    JoinSplit(UsedOf(pr, w.in0), UsedOf(pr, w.in1), OutputNote(pr, w.out0), OutputNote(pr, w.out1))
  }

  /** Membership: a nonzero input accepted under a known root is the leaf its path points at, in the
      present tree, although the root may be an older one. */
  lemma InputIsLeaf(host: Host, q: Transcript, leaves: seq<F>, root: F, nullifier: F, w: InputWitness)
    requires NoCollision(host.pr, q) && TreesListed(host.pr, q, leaves)
    requires |leaves| <= Pow2(DEPTH) && IsKnown(host, leaves, root)
    requires InputOk(host.pr, root, nullifier, w) && InputListed(host.pr, q, w)
    ensures UsedOk(host.pr, q, leaves, nullifier, UsedOf(host.pr, w))
  {
    var pr := host.pr;
    var c := InputCommitment(pr, w);
    InputOpens(pr, w);
    hide NoteCommitment, InputPkD, Commitment, Nullifier, NkFold, ReduceGate, Pow2, Root;
    hide FrontierTree.RootAfter, Fold, CollisionFree, TreeAsked, FoldAsked;
    if w.amount != 0 {
      var m: nat :| m <= |leaves| < m + ROOT_HISTORY && root == FrontierTree.RootAfter(pr.compress, DEPTH, leaves[..m]);
      FrontierTree.RootAfterIsRoot(pr.compress, DEPTH, leaves[..m]);
      FoldBindsToRoot(pr.compress, Indexed(leaves[..m]), c, w.pathElements, w.pathIndices, q.pairs);
      assert leaves[w.pathIndices] == c;
    }
  }

  lemma InputOpens(pr: Primitives, w: InputWitness)
    ensures InputCommitment(pr, w) == Commitment(pr, InputNote(pr, w))
  {
  }

  lemma CircuitBalances(pr: Primitives, pub: Public, w: Witness, signed: i128)
    requires Satisfies(pr, pub, w) && pub.publicAmount == CalcPublicAmount(signed)
    ensures w.in0.amount + w.in1.amount + signed == w.out0.amount + w.out1.amount
  {
    TransactionBalance(w.in0.amount, w.in1.amount, w.out0.amount, w.out1.amount, signed);
  }

  /** A satisfied circuit under a known root is a join-split of leaves that balances over the integers. */
  lemma CircuitGivesJoinSplit(host: Host, q: Transcript, leaves: seq<F>, pub: Public, w: Witness, signed: i128)
    requires NoCollision(host.pr, q) && TreesListed(host.pr, q, leaves)
    requires |leaves| <= Pow2(DEPTH) && IsKnown(host, leaves, pub.root)
    requires Satisfies(host.pr, pub, w) && Listed(host.pr, q, w) && pub.publicAmount == CalcPublicAmount(signed)
    ensures JoinSplitOk(host.pr, q, leaves, pub, signed, JoinSplitOf(host.pr, w))
  {
    InputIsLeaf(host, q, leaves, pub.root, pub.null0, w.in0);
    InputIsLeaf(host, q, leaves, pub.root, pub.null1, w.in1);
    CircuitBalances(host.pr, pub, w, signed);
  }

  // ----- bookkeeping behind the public state

  /** Opening behind each leaf, nullifier key of each consumed leaf, and where each nullifier came from. */
  datatype Book = Book(notes: seq<Opening>, consumed: map<nat, F>, origins: map<F, Used>)

  function Sum(notes: seq<Opening>, gone: set<nat>): nat {
    if notes == [] then 0
    else
      var i := |notes| - 1;
      Sum(notes[..i], gone) + if i in gone then 0 else notes[i].amount
  }

  ghost predicate ConsumedOk(pr: Primitives, q: Transcript, leaves: seq<F>, spent: set<F>, b: Book, i: nat)
    requires |b.notes| == |leaves| && i in b.consumed
  {
    && i < |leaves|
    && (b.notes[i].owner, b.consumed[i]) in q.owners
    && (leaves[i], i, b.consumed[i]) in q.spends
    && Nullifier(pr, leaves[i], i, b.consumed[i]) in spent
  }

  ghost predicate OriginOk(pr: Primitives, q: Transcript, b: Book, n: F)
    requires n in b.origins
  {
    var u := b.origins[n];
    && u.note in q.notes
    && (Commitment(pr, u.note), u.position, u.nkFold) in q.spends
    && n == Nullifier(pr, Commitment(pr, u.note), u.position, u.nkFold)
    && (u.note.amount != 0 ==> u.position in b.consumed)
  }

  ghost predicate BookOk(pr: Primitives, q: Transcript, leaves: seq<F>, spent: set<F>, b: Book) {
    && |b.notes| == |leaves|
    && (forall i :: 0 <= i < |leaves| ==> b.notes[i] in q.notes && Commitment(pr, b.notes[i]) == leaves[i])
    && (forall i :: i in b.consumed ==> ConsumedOk(pr, q, leaves, spent, b, i))
    && b.origins.Keys == spent
    && (forall n :: n in b.origins ==> OriginOk(pr, q, b, n))
  }

  // ----- sums

  lemma {:induction false} SumConsume(notes: seq<Opening>, gone: set<nat>, i: nat)
    requires i !in gone
    ensures Sum(notes, gone + {i}) == Sum(notes, gone) - if i < |notes| then notes[i].amount else 0
  {
    if notes != [] {
      SumConsume(notes[..|notes| - 1], gone, i);
    }
  }

  lemma SumAppend(notes: seq<Opening>, gone: set<nat>, n: Opening)
    requires |notes| !in gone
    ensures Sum(notes + [n], gone) == Sum(notes, gone) + n.amount
  {
    assert (notes + [n])[..|notes|] == notes;
  }

  /** Only notes of nonzero amount matter to a sum. */
  lemma {:induction false} SumAgree(notes: seq<Opening>, gone: set<nat>, gone': set<nat>)
    requires forall i: nat :: i < |notes| && notes[i].amount != 0 ==> (i in gone <==> i in gone')
    ensures Sum(notes, gone) == Sum(notes, gone')
  {
    if notes != [] {
      SumAgree(notes[..|notes| - 1], gone, gone');
    }
  }

  // ----- one input, one output

  function UseInput(b: Book, nullifier: F, u: Used): Book {
    b.(consumed := if u.note.amount != 0 then b.consumed[u.position := u.nkFold] else b.consumed,
       origins := b.origins[nullifier := u])
  }

  /** A second spend of a consumed leaf would publish the same nullifier again, because the
      transmission key fixes the nullifier key. */
  lemma ReuseRepeatsNullifier(pr: Primitives, q: Transcript, leaves: seq<F>, spent: set<F>, b: Book, nullifier: F,
                              u: Used)
    requires NoCollision(pr, q) && BookOk(pr, q, leaves, spent, b)
    requires UsedOk(pr, q, leaves, nullifier, u) && u.note.amount != 0
    ensures b.notes[u.position] == u.note
    ensures u.position in b.consumed ==> nullifier in spent
  {
    assert b.notes[u.position] == u.note;
    if u.position in b.consumed {
      assert ConsumedOk(pr, q, leaves, spent, b, u.position);
    }
  }

  lemma UseInputConsumed(pr: Primitives, q: Transcript, leaves: seq<F>, spent: set<F>, b: Book, nullifier: F, u: Used)
    requires |b.notes| == |leaves| && UsedOk(pr, q, leaves, nullifier, u)
    requires u.note.amount != 0 ==> b.notes[u.position] == u.note
    requires forall i :: i in b.consumed ==> ConsumedOk(pr, q, leaves, spent, b, i)
    ensures var b' := UseInput(b, nullifier, u);
      forall i :: i in b'.consumed ==> ConsumedOk(pr, q, leaves, spent + {nullifier}, b', i)
  {
    hide Commitment, Nullifier;
    var b' := UseInput(b, nullifier, u);
    forall i | i in b'.consumed ensures ConsumedOk(pr, q, leaves, spent + {nullifier}, b', i) {
      if i in b.consumed {
        assert ConsumedOk(pr, q, leaves, spent, b, i);
      }
    }
  }

  lemma UseInputOrigins(pr: Primitives, q: Transcript, leaves: seq<F>, b: Book, nullifier: F, u: Used)
    requires UsedOk(pr, q, leaves, nullifier, u)
    requires forall n :: n in b.origins ==> OriginOk(pr, q, b, n)
    ensures var b' := UseInput(b, nullifier, u);
      forall n :: n in b'.origins ==> OriginOk(pr, q, b', n)
  {
    hide Commitment, Nullifier;
    var b' := UseInput(b, nullifier, u);
    forall n | n in b'.origins ensures OriginOk(pr, q, b', n) {
      if n != nullifier {
        assert OriginOk(pr, q, b, n);
      }
    }
  }

  /** Using an input with a new nullifier keeps the book and takes its amount out of the sum. */
  lemma UseInputKeeps(pr: Primitives, q: Transcript, leaves: seq<F>, spent: set<F>, b: Book, nullifier: F, u: Used)
    requires NoCollision(pr, q) && BookOk(pr, q, leaves, spent, b)
    requires UsedOk(pr, q, leaves, nullifier, u) && nullifier !in spent
    ensures var b' := UseInput(b, nullifier, u);
      && BookOk(pr, q, leaves, spent + {nullifier}, b')
      && Sum(b'.notes, b'.consumed.Keys) == Sum(b.notes, b.consumed.Keys) - u.note.amount
  {
    hide Commitment, Nullifier, NoCollision, Sum, ConsumedOk, OriginOk;
    var b' := UseInput(b, nullifier, u);
    if u.note.amount != 0 {
      ReuseRepeatsNullifier(pr, q, leaves, spent, b, nullifier, u);
      SumConsume(b.notes, b.consumed.Keys, u.position);
      assert b'.consumed.Keys == b.consumed.Keys + {u.position};
    }
    UseInputConsumed(pr, q, leaves, spent, b, nullifier, u);
    UseInputOrigins(pr, q, leaves, b, nullifier, u);
    assert b'.origins.Keys == spent + {nullifier};
  }

  function AddOutput(b: Book, note: Opening): Book {
    b.(notes := b.notes + [note])
  }

  lemma AddOutputKeeps(pr: Primitives, q: Transcript, leaves: seq<F>, spent: set<F>, b: Book, c: F, note: Opening)
    requires BookOk(pr, q, leaves, spent, b)
    requires note in q.notes && Commitment(pr, note) == c
    ensures var b' := AddOutput(b, note);
      && BookOk(pr, q, leaves + [c], spent, b')
      && Sum(b'.notes, b'.consumed.Keys) == Sum(b.notes, b.consumed.Keys) + note.amount
  {
    var b' := AddOutput(b, note);
    forall i | i in b.consumed ensures i < |leaves| && ConsumedOk(pr, q, leaves + [c], spent, b', i) {
      assert ConsumedOk(pr, q, leaves, spent, b, i);
    }
    forall n | n in b'.origins ensures OriginOk(pr, q, b', n) {
      assert OriginOk(pr, q, b, n);
    }
    SumAppend(b.notes, b.consumed.Keys, note);
  }

  // ----- one join-split

  function UpdatedBook(b: Book, pub: Public, j: JoinSplit): Book {
    AddOutput(AddOutput(UseInput(UseInput(b, pub.null0, j.in0), pub.null1, j.in1), j.out0), j.out1)
  }

  /** The book of an accepted join-split. The second input is checked against a spent set that already
      has the first one's nullifier, so one leaf is never taken twice; the sum moves by exactly the
      signed public amount. */
  lemma JoinSplitKeepsBook(pr: Primitives, q: Transcript, leaves: seq<F>, spent: set<F>, b: Book, pub: Public,
                           signed: int, j: JoinSplit)
    requires NoCollision(pr, q) && BookOk(pr, q, leaves, spent, b)
    requires JoinSplitOk(pr, q, leaves, pub, signed, j) && pub.null0 !in spent && pub.null1 !in spent
    ensures var b' := UpdatedBook(b, pub, j);
      && BookOk(pr, q, leaves + [pub.comm0] + [pub.comm1], spent + {pub.null0} + {pub.null1}, b')
      && Sum(b'.notes, b'.consumed.Keys) == Sum(b.notes, b.consumed.Keys) + signed
  {
    UseInputKeeps(pr, q, leaves, spent, b, pub.null0, j.in0);
    var b1 := UseInput(b, pub.null0, j.in0);
    UseInputKeeps(pr, q, leaves, spent + {pub.null0}, b1, pub.null1, j.in1);
    var b2 := UseInput(b1, pub.null1, j.in1);
    var spent' := spent + {pub.null0} + {pub.null1};
    AddOutputKeeps(pr, q, leaves, spent', b2, pub.comm0, j.out0);
    AddOutputKeeps(pr, q, leaves + [pub.comm0], spent', AddOutput(b2, j.out0), pub.comm1, j.out1);
  }

  // ----- one step

  ghost predicate Inv(host: Host, q: Transcript, s: State, b: Book) {
    && s.config.Some? && Canonical(s.config.value.domain)
    && |s.leaves| <= Pow2(DEPTH)
    && TreesListed(host.pr, q, s.leaves)
    && BookOk(host.pr, q, s.leaves, s.spent, b)
    && Sum(b.notes, b.consumed.Keys) == s.tvl
  }

  /** What an accepted two-in two-out call leaves behind. */
  lemma AcceptedState(host: Host, s: State, step: Step)
    requires Accepted(host, s, step) && |step.proof.inputNullifiers| == 2 == |step.proof.outputCommitments|
    ensures step.Call?
    ensures var s' := After(host, s, step);
      && s'.leaves == s.leaves + [step.proof.outputCommitments[0]] + [step.proof.outputCommitments[1]]
      && s'.spent == s.spent + {step.proof.inputNullifiers[0]} + {step.proof.inputNullifiers[1]}
      && s'.tvl == s.tvl + Signed(step.ext)
      && s'.config == s.config
      && |s'.leaves| <= Pow2(DEPTH)
    ensures InI128(Signed(step.ext)) && step.proof.publicAmount == CalcPublicAmount(Signed(step.ext))
    ensures IsKnown(host, s.leaves, step.proof.root)
    ensures step.proof.inputNullifiers[0] !in s.spent && step.proof.inputNullifiers[1] !in s.spent
  {
    hide After, Rejection, Attempt, IsKnown, Pay, CalcPublicAmount, Canonical, PublicInputs, Pow2;
    AcceptedIff(host, s, step.proof, step.ext, step.sender, step.authorized);
    AcceptedEffect(host, s, step);
    var ns := step.proof.inputNullifiers;
    assert ns[0] in ns && ns[1] in ns;
    assert (set x | x in ns) == {ns[0]} + {ns[1]};
  }

  /** Canonical values pass into the proof check unchanged and in the order they are listed. */
  lemma CanonicalUnchanged(proof: TxProof, domain: F)
    requires Canonical(proof.root) && Canonical(proof.publicAmount) && Canonical(proof.extDataHash) && Canonical(domain)
    requires forall x :: x in proof.inputNullifiers ==> Canonical(x)
    requires forall x :: x in proof.outputCommitments ==> Canonical(x)
    ensures PublicInputs(proof, domain) ==
              [proof.root, proof.publicAmount, proof.extDataHash,
               domain] + proof.inputNullifiers + proof.outputCommitments
  {
    ToFrsId(proof.inputNullifiers);
    ToFrsId(proof.outputCommitments);
  }

  lemma ToFrsId(xs: seq<F>)
    requires forall x :: x in xs ==> Canonical(x)
    ensures ToFrs(xs) == xs
  {
    forall k | 0 <= k < |xs| ensures ToFrs(xs)[k] == xs[k] {
      assert xs[k] in xs;
    }
  }

  /** The statement proved for an accepted call is about the very values the contract compares and stores.
      Together there are four nullifiers and commitments, of which at least two are commitments. */
  lemma AcceptedSignals(host: Host, s: State, step: Step)
    requires Accepted(host, s, step) && s.config.Some? && Canonical(s.config.value.domain)
    ensures step.Call?
    ensures Verified(host, step.proof.points, StepSignals(s, step))
    ensures StepSignals(s, step)
            == [step.proof.root, step.proof.publicAmount, step.proof.extDataHash, s.config.value.domain]
                                    + step.proof.inputNullifiers + step.proof.outputCommitments
    ensures |step.proof.inputNullifiers| + |step.proof.outputCommitments| == 4 && |step.proof.outputCommitments| >= 2
  {
    hide Satisfies, IsKnown, Pay, CalcPublicAmount, Canonical, PublicInputs, Pow2, Rejection, Attempt;
    AcceptedIff(host, s, step.proof, step.ext, step.sender, step.authorized);
    CanonicalUnchanged(step.proof, s.config.value.domain);
  }

  lemma AcceptedIsProved(host: Host, s: State, step: Step, w: Witness)
    requires Accepted(host, s, step) && s.config.Some? && Canonical(s.config.value.domain)
    requires Extracted(host, step.proof.points, StepSignals(s, step), w)
    ensures |StepSignals(s, step)| == 8 && Satisfies(host.pr, FromSignals(StepSignals(s, step)), w)
    ensures |step.proof.inputNullifiers| == 2 ==>
              |step.proof.outputCommitments| == 2
                  && FromSignals(StepSignals(s, step)) == PublicOf(step.proof, s.config.value.domain)
  {
    hide Satisfies, Accepted, PublicInputs;
    AcceptedSignals(host, s, step);
  }

  /** Exactly when an accepted call finds both nullifiers of its proof unspent and records both: when it lists
      two. With one listed, the second becomes a leaf instead and is neither looked up nor recorded, spent
      before or not; with none, that goes for both. */
  lemma NullifiersRecordedIff(host: Host, s: State, step: Step)
    requires Accepted(host, s, step) && s.config.Some? && Canonical(s.config.value.domain)
    requires |StepSignals(s, step)| == 8 ==>
               var pub := FromSignals(StepSignals(s, step)); pub.null0 != pub.null1
    ensures |StepSignals(s, step)| == 8
    ensures var pub, s', n := FromSignals(StepSignals(s, step)), After(host, s, step), |step.proof.inputNullifiers|;
      && (pub.null0 !in s.spent && pub.null1 !in s.spent && pub.null0 in s'.spent && pub.null1 in s'.spent <==> n == 2)
      && n <= 2
      && (n == 2 ==> s'.leaves == s.leaves + [pub.comm0, pub.comm1])
      && (n == 1 ==> s'.spent == s.spent + {pub.null0} && s'.leaves == s.leaves + [pub.null1, pub.comm0])
      && (n == 0 ==> s'.spent == s.spent && s'.leaves == s.leaves + [pub.null0, pub.null1])
  {
    hide Accepted, After, StepSignals, FromSignals, Canonical, Verified;
    AcceptedSignals(host, s, step);
    AcceptedSets(host, s, step);
    EightSignals(host, step.proof.points, StepSignals(s, step));
    var v, ns, cs := StepSignals(s, step), step.proof.inputNullifiers, step.proof.outputCommitments;
    FlatOrder(v, ns, cs);
    RecordedCases(s.spent, ns, cs, FromSignals(v));
  }

  lemma EightSignals(host: Host, points: Groth16Proof, v: seq<F>)
    requires Verified(host, points, v)
    ensures |v| == 8
  {
  }

  lemma AcceptedSets(host: Host, s: State, step: Step)
    requires Accepted(host, s, step)
    ensures step.Call? && 2 <= |step.proof.outputCommitments|
    ensures forall n :: n in step.proof.inputNullifiers ==> n !in s.spent
    ensures After(host, s, step).spent == s.spent + set x | x in step.proof.inputNullifiers
    ensures After(host, s, step).leaves == s.leaves + [step.proof.outputCommitments[0], step.proof.outputCommitments[1]]
  {
    hide Accepted, After, NullifierEvents;
    AcceptedEffect(host, s, step);
  }

  lemma RecordedCases(spent: set<F>, ns: seq<F>, cs: seq<F>, pub: Public)
    requires pub.null0 != pub.null1 && forall n :: n in ns ==> n !in spent
    requires |ns| == 2 ==> ns == [pub.null0, pub.null1] && cs == [pub.comm0, pub.comm1]
    requires |ns| == 1 ==> ns == [pub.null0] && cs == [pub.null1, pub.comm0, pub.comm1]
    requires |ns| == 0 ==> ns == [] && cs == [pub.null0, pub.null1, pub.comm0, pub.comm1]
    requires |ns| <= 2
    ensures var after := spent + set x | x in ns;
      && (pub.null0 !in spent && pub.null1 !in spent && pub.null0 in after && pub.null1 in after <==> |ns| == 2)
      && (|ns| == 1 ==> after == spent + {pub.null0}) && (|ns| == 0 ==> after == spent)
  {
    if |ns| == 2 {
      assert ns[0] in ns && ns[1] in ns;
    }
  }

  /** Where nullifiers and commitments land among the public inputs. */
  lemma FlatOrder(v: seq<F>, ns: seq<F>, cs: seq<F>)
    requires |v| == 8 && |ns| + |cs| == 4 && |cs| >= 2 && v[4..] == ns + cs
    ensures var pub := FromSignals(v);
      && (|ns| == 2 ==> ns == [pub.null0, pub.null1] && cs == [pub.comm0, pub.comm1])
      && (|ns| == 1 ==> ns == [pub.null0] && cs == [pub.null1, pub.comm0, pub.comm1])
      && (|ns| == 0 ==> ns == [] && cs == [pub.null0, pub.null1, pub.comm0, pub.comm1])
  {
    assert forall i :: 0 <= i < 4 ==> v[4..][i] == v[i + 4];
  }

  lemma StepKeepsInv(host: Host, q: Transcript, s: State, b: Book, step: Step, w: Witness) returns (b': Book)
    requires NoCollision(host.pr, q) && Inv(host, q, s, b) && Backed(host, q, s, step, w)
    ensures Inv(host, q, After(host, s, step), b')
  {
    hide NoCollision, BookOk, JoinSplitOk, JoinSplitOf, Satisfies, Listed, After, IsKnown, UpdatedBook;
    hide Sum, Pow2, FromOthers, CalcPublicAmount;
    if Accepted(host, s, step) {
      AcceptedIsProved(host, s, step, w);
      AcceptedState(host, s, step);
      var pub, signed := PublicOf(step.proof, s.config.value.domain), Signed(step.ext);
      CircuitGivesJoinSplit(host, q, s.leaves, pub, w, signed);
      var j := JoinSplitOf(host.pr, w);
      JoinSplitKeepsBook(host.pr, q, s.leaves, s.spent, b, pub, signed, j);
      b' := UpdatedBook(b, pub, j);
    } else {
      b' := b;
      RejectedState(host, s, step);
    }
  }

  lemma RejectedState(host: Host, s: State, step: Step)
    requires !Accepted(host, s, step)
    ensures var s' := After(host, s, step);
      s'.leaves == s.leaves && s'.spent == s.spent && s'.tvl == s.tvl && s'.config == s.config
  {
  }

  // ----- whole runs

  ghost predicate BackedRun(host: Host, q: Transcript, s: State, steps: seq<Step>, ws: seq<Witness>) {
    && |ws| == |steps|
    && TreesListed(host.pr, q, s.leaves)
    && forall k: nat :: k < |steps| ==> Backed(host, q, StateAt(host, s, steps, k), steps[k], ws[k])
  }

  lemma {:induction false} RunKeepsInv(host: Host, q: Transcript, s: State, b: Book, steps: seq<Step>,
                                       ws: seq<Witness>, k: nat)
    returns (b': Book)
    requires NoCollision(host.pr, q) && Inv(host, q, s, b)
    requires BackedRun(host, q, s, steps, ws) && k <= |steps|
    ensures Inv(host, q, StateAt(host, s, steps, k), b')
  {
    hide Inv, Backed, After, NoCollision, TreesListed;
    if k == 0 {
      b' := b;
    } else {
      var b0 := RunKeepsInv(host, q, s, b, steps, ws, k - 1);
      assert Backed(host, q, StateAt(host, s, steps, k - 1), steps[k - 1], ws[k - 1]);
      b' := StepKeepsInv(host, q, StateAt(host, s, steps, k - 1), b0, steps[k - 1], ws[k - 1]);
    }
  }

  // ----- the theorem, in terms of the public state only

  /** The listed notes that open the leaves, in order. */
  ghost predicate OpensAll(pr: Primitives, q: Transcript, leaves: seq<F>, notes: seq<Opening>) {
    |notes| == |leaves| &&
    forall i :: 0 <= i < |leaves| ==> notes[i] in q.notes && Commitment(pr, notes[i]) == leaves[i]
  }

  /** A nullifier of leaf `i`, made with the nullifier key of the note's owner, has been published. */
  ghost predicate Nullified(pr: Primitives, q: Transcript, s: State, notes: seq<Opening>, i: nat)
    requires |notes| == |s.leaves| && i < |notes|
  {
    exists nk :: (notes[i].owner, nk) in q.owners
      && (s.leaves[i], i, nk) in q.spends
      && Nullifier(pr, s.leaves[i], i, nk) in s.spent
  }

  ghost function NullifiedLeaves(pr: Primitives, q: Transcript, s: State, notes: seq<Opening>): set<nat>
    requires |notes| == |s.leaves|
  {
    set i: nat | i < |notes| && Nullified(pr, q, s, notes, i)
  }

  lemma ConsumedIsNullified(pr: Primitives, q: Transcript, s: State, b: Book, i: nat)
    requires NoCollision(pr, q) && BookOk(pr, q, s.leaves, s.spent, b)
    requires i < |s.leaves| && b.notes[i].amount != 0
    ensures i in b.consumed <==> Nullified(pr, q, s, b.notes, i)
  {
    if i in b.consumed {
      assert ConsumedOk(pr, q, s.leaves, s.spent, b, i);
    }
    if Nullified(pr, q, s, b.notes, i) {
      var nk :| (b.notes[i].owner, nk) in q.owners && (s.leaves[i], i, nk) in q.spends
        && Nullifier(pr, s.leaves[i], i, nk) in s.spent;
      var n := Nullifier(pr, s.leaves[i], i, nk);
      assert OriginOk(pr, q, b, n);
      var u := b.origins[n];
      assert (Commitment(pr, u.note), u.position, u.nkFold) == (s.leaves[i], i, nk);
      assert u.note == b.notes[i];
    }
  }

  /** For a kept book the public reading of the state gives the same sum, and its notes are the only
      openings of the leaves. */
  lemma InvGivesSum(host: Host, q: Transcript, s: State, b: Book, notes: seq<Opening>)
    requires NoCollision(host.pr, q) && Inv(host, q, s, b) && OpensAll(host.pr, q, s.leaves, notes)
    ensures |notes| == |s.leaves|
    ensures Sum(notes, NullifiedLeaves(host.pr, q, s, notes)) == s.tvl
  {
    assert notes == b.notes by {
      forall i | 0 <= i < |notes| ensures notes[i] == b.notes[i] {
        assert Commitment(host.pr, notes[i]) == Commitment(host.pr, b.notes[i]);
      }
    }
    var gone, consumed := NullifiedLeaves(host.pr, q, s, notes), b.consumed.Keys;
    forall i: nat | i < |notes| && notes[i].amount != 0 ensures i in gone <==> i in consumed {
      ConsumedIsNullified(host.pr, q, s, b, i);
    }
    SumAgree(notes, gone, consumed);
  }

  lemma EmptyInv(host: Host, q: Transcript, config: Config, balances: Balances)
    requires GoodConfig(config) && TreesListed(host.pr, q, [])
    ensures Inv(host, q, Initial(config, balances), Book([], map[], map[]))
  {
  }

  lemma BookOpens(host: Host, q: Transcript, s: State, b: Book)
    requires Inv(host, q, s, b)
    ensures OpensAll(host.pr, q, s.leaves, b.notes)
  {
  }

  /** Solvency: after any run from a fresh vault, the leaves have openings, and for the openings the
      amounts of the notes not yet nullified add up to the TVL, which the vault's token balance covers. */
  lemma Solvent(host: Host, q: Transcript, config: Config, balances: Balances, steps: seq<Step>, ws: seq<Witness>)
    requires NoCollision(host.pr, q)
    requires GoodConfig(config) && 0 <= BalanceOf(balances, host.self)
    requires BackedRun(host, q, Initial(config, balances), steps, ws)
    ensures var s := Final(host, Initial(config, balances), steps);
      && (exists notes: seq<Opening> :: OpensAll(host.pr, q, s.leaves, notes))
      && (forall notes: seq<Opening> :: OpensAll(host.pr, q, s.leaves, notes) ==>
            Sum(notes, NullifiedLeaves(host.pr, q, s, notes)) == s.tvl)
      && s.tvl <= BalanceOf(s.balances, host.self)
  {
    hide NoCollision, OpensAll, Sum, NullifiedLeaves, StateAt, FromOthers, Inv, TreesListed;
    var s0 := Initial(config, balances);
    var s := Final(host, s0, steps);
    EmptyInv(host, q, config, balances);
    var b := RunKeepsInv(host, q, s0, Book([], map[], map[]), steps, ws, |steps|);
    BookOpens(host, q, s, b);
    forall notes: seq<Opening> | OpensAll(host.pr, q, s.leaves, notes)
      ensures |notes| == |s.leaves| && Sum(notes, NullifiedLeaves(host.pr, q, s, notes)) == s.tvl
    {
      InvGivesSum(host, q, s, b, notes);
    }
    forall j | 0 <= j < |steps| ensures FromOthers(host, steps[j]) {
      assert Backed(host, q, StateAt(host, s0, steps, j), steps[j], ws[j]);
    }
    Custody(host, config, balances, steps, |steps|);
  }
}
