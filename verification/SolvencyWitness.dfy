/** A small concrete world: primitives on a handful of numbers, a deposit and a withdrawal. It shows that
    the assumptions of the solvency theorem can be met by a run that accepts a deposit, and that the theorem
    fails for a run whose last accepted call lists one nullifier. */
module SolvencyWitness {
  import opened Basics
  import opened PaddedTree
  import opened MerklePath
  import opened Field
  import opened Circuit
  import opened VaultSpec
  import opened VaultRuns
  import opened Solvency
  import FrontierTree

  // ----- primitives

  /** The second input's nullifier in the withdrawal. */
  const X: F := 10_001_000

  /** One more than the left input when the right one is small; a few fixed values otherwise. */
  function Compress(a: F, b: F): F {
    if b < 20 then (a + 1) % P
    else if a == 1000 then 2001
    else if a == X then 4501
    else if b == X + 1 then 3002
    else 4002
  }

  /** Commitments are their blindings, nullifiers are shifted commitments. */
  function Hash3(a: F, b: F, c: F, t: nat): F {
    if t == 1 then c % P else (a + 10_000_000) % P
  }

  const ORIGIN := Point(0, 0)

  const PR := Primitives((a: F, b: F) => Compress(a, b), (a: F, t: nat) => 0, (a: F, b: F, t: nat) => t % P,
                         (a: F, b: F, c: F, t: nat) => Hash3(a, b, c, t), (s: nat) => ORIGIN,
                             (e: nat, p: Point) => ORIGIN, (p: Point) => true)

  lemma PrimitivesSound()
    ensures Sound(PR)
  {
  }

  // ----- trees of at most four leaves

  const LEAVES: seq<F> := [1000, 1500, X, 3600]

  /** Where the left edge of the tree over the first `m` leaves starts counting, from level 2 on. */
  function Base(m: nat): nat {
    if m == 0 then 0 else 1000 * m
  }

  lemma OneMore(a: F, b: F)
    requires b < 20 && a < 1_000_000_000
    ensures Compress(a, b) == a + 1
  {
  }

  lemma {:induction false} ZeroIs(l: nat)
    requires l <= 20
    ensures ZeroAt(PR.compress, l) == l
  {
    if l > 0 {
      ZeroIs(l - 1);
    }
  }

  lemma {:induction false} RightIs(m: nat, l: nat, i: nat)
    requires m <= 4 && l <= 20 && i >= (if l == 0 then m else if l == 1 then 2 else 1)
    ensures Node(PR.compress, Indexed(LEAVES[..m]), l, i) == l
  {
    if l > 0 {
      hide Compress;
      RightIs(m, l - 1, 2 * i);
      RightIs(m, l - 1, 2 * i + 1);
      OneMore(l - 1, l - 1);
    }
  }

  /** The nodes of the two lowest levels above the leaves that are not zero hashes. */
  lemma LowNodes(m: nat)
    requires m <= 4
    ensures forall i: nat :: i < m ==> Node(PR.compress, Indexed(LEAVES[..m]), 0, i) == LEAVES[i]
    ensures Node(PR.compress, Indexed(LEAVES[..m]), 1, 0) == if m == 0 then 1 else if m == 1 then 1001 else 2001
    ensures Node(PR.compress, Indexed(LEAVES[..m]), 1, 1) == if m <= 2 then 1 else if m == 3 then X + 1 else 4501
    ensures Node(PR.compress, Indexed(LEAVES[..m]), 2, 0) == Base(m) + 2
  {
    var t := Indexed(LEAVES[..m]);
    assert forall i: nat :: i < m ==> Node(PR.compress, t, 0, i) == LEAVES[i];
    assert forall i: nat :: i >= m ==> Node(PR.compress, t, 0, i) == 0;
    assert Node(PR.compress, t, 1, 0) == Compress(Node(PR.compress, t, 0, 0), Node(PR.compress, t, 0, 1));
    assert Node(PR.compress, t, 1, 1) == Compress(Node(PR.compress, t, 0, 2), Node(PR.compress, t, 0, 3));
    assert Node(PR.compress, t, 2, 0) == Compress(Node(PR.compress, t, 1, 0), Node(PR.compress, t, 1, 1));
  }

  lemma {:induction false} LeftIs(m: nat, l: nat)
    requires m <= 4 && 2 <= l <= 20
    ensures Node(PR.compress, Indexed(LEAVES[..m]), l, 0) == Base(m) + l
  {
    hide Compress;
    if l == 2 {
      LowNodes(m);
    } else {
      LeftIs(m, l - 1);
      RightIs(m, l - 1, 1);
      OneMore(Base(m) + l - 1, l - 1);
    }
  }

  // ----- what is hashed

  predicate Asked(a: F, b: F) {
    || (b < 20 && (a == b || a == 1000 + b || (b >= 1 && a == 2000 + b)
                   || (b >= 2 && (a == 3000 + b || a == 4000 + b))))
    || (b == 0 && (a == X || 100_000 <= a < 100_020 || 200_000 <= a < 200_020 || 300_000 <= a < 300_020))
    || (a == 1000 && b == 1500) || (a == X && b == 3600) || (a == 2001 && (b == X + 1 || b == 4501))
  }

  ghost const PAIRS: iset<(F, F)> := iset p: (F, F) | Asked(p.0, p.1)

  /** Reads a listed pair back from its hash. */
  function Decompress(v: F): (int, int) {
    if v == 2001 then (1000, 1500)
    else if v == 3002 then (2001, X + 1)
    else if v == 4002 then (2001, 4501)
    else if v == 4501 then (X, 3600)
    else (v - 1, if v <= 4020 then (v - 1) % 1000 else 0)
  }

  lemma DecompressReads(a: F, b: F)
    requires Asked(a, b)
    ensures Decompress(Compress(a, b)) == (a, b)
  {
  }

  lemma PairsCollisionFree()
    ensures CollisionFree(PR.compress, PAIRS)
  {
    hide Compress, Asked, Decompress;
    forall p, q | p in PAIRS && q in PAIRS && PR.compress(p.0, p.1) == PR.compress(q.0, q.1) ensures p == q {
      DecompressReads(p.0, p.1);
      DecompressReads(q.0, q.1);
    }
  }

  lemma LowPairs(m: nat, l: nat, i: nat)
    requires m <= 4 && l < 2
    ensures ChildPair(PR.compress, Indexed(LEAVES[..m]), l, i) in PAIRS
  {
    hide Compress, Node;
    var t := Indexed(LEAVES[..m]);
    LowNodes(m);
    if l == 0 {
      forall j: nat | j >= m ensures Node(PR.compress, t, 0, j) == 0 {
        RightIs(m, 0, j);
      }
    } else if i > 0 {
      RightIs(m, 1, 2 * i);
      RightIs(m, 1, 2 * i + 1);
    }
  }

  lemma HighPairs(m: nat, l: nat, i: nat)
    requires m <= 4 && 2 <= l < 20
    ensures ChildPair(PR.compress, Indexed(LEAVES[..m]), l, i) in PAIRS
  {
    hide Compress, Node;
    RightIs(m, l, 2 * i + 1);
    if i == 0 {
      LeftIs(m, l);
    } else {
      RightIs(m, l, 2 * i);
    }
  }

  lemma TreeIsAsked(m: nat)
    requires m <= 4
    ensures TreeAsked(PR.compress, Indexed(LEAVES[..m]), DEPTH, PAIRS)
  {
    hide Compress, Node, Asked, ChildPair;
    forall l: nat, i: nat | l < DEPTH ensures ChildPair(PR.compress, Indexed(LEAVES[..m]), l, i) in PAIRS {
      if l < 2 {
        LowPairs(m, l, i);
      } else {
        HighPairs(m, l, i);
      }
    }
  }

  // ----- notes and witnesses

  const KEYS := Keys(0, 0, 0)

  function Zeros(): seq<F> { seq(20, i => 0) }

  /** Siblings of leaf 0 in the tree over the first two leaves. */
  function SpendPath(): seq<F> { seq(20, l requires 0 <= l < 20 => if l == 0 then 1500 else l) }

  function Dummy(blinding: F): InputWitness {
    InputWitnessOf(PR, 0, KEYS, blinding, 0, Zeros())
  }

  function SpentNote(): InputWitness {
    InputWitnessOf(PR, 1, KEYS, 1000, 0, SpendPath())
  }

  function Out(amount: F, blinding: F): OutputWitness {
    OutputWitness(amount, ORIGIN, blinding)
  }

  function DepositWitness(): Witness {
    Witness(Dummy(100_000), Dummy(200_000), Out(1, 1000), Out(0, 1500))
  }

  function WithdrawalWitness(): Witness {
    Witness(Dummy(300_000), SpentNote(), Out(0, 3600), Out(0, 3700))
  }

  /** One note of amount 1, and empty notes. */
  predicate InUse(n: Opening) {
    && n.owner == 5
    && (n.blinding == 1000 ==> n.amount == 1)
    && (n.blinding != 1000 ==>
          && n.amount == 0
          && (n.blinding == 1500 || n.blinding == 3600 || n.blinding == 3700 || n.blinding == X
              || n.blinding == 100_000 || n.blinding == 200_000 || n.blinding == 300_000))
  }

  predicate Used(u: (F, nat, F)) {
    (u.0 == 1000 || u.0 == 100_000 || u.0 == 200_000 || u.0 == 300_000) && u.1 == 0 && u.2 == 6
  }

  ghost const Q: Transcript := Transcript(PAIRS, iset n: Opening | InUse(n), iset u: (F, nat, F)
                                          | Used(u), iset{(5, 6)})

  lemma NotesDiffer(a: Opening, b: Opening)
    requires InUse(a) && InUse(b)
    ensures Commitment(PR, a) == Commitment(PR, b) ==> a == b
    ensures Commitment(PR, a) != 0
  {
  }

  lemma SpendsDiffer(a: (F, nat, F), b: (F, nat, F))
    requires Used(a) && Used(b)
    ensures Nullifier(PR, a.0, a.1, a.2) == Nullifier(PR, b.0, b.1, b.2) ==> a == b
  {
  }

  lemma NothingCollides()
    ensures NoCollision(PR, Q)
  {
    PairsCollisionFree();
    hide InUse, Used, Hash3, Commitment, Nullifier, CollisionFree;
    forall a, b | a in Q.notes && b in Q.notes
      ensures Commitment(PR, a) != 0 && (Commitment(PR, a) == Commitment(PR, b) ==> a == b)
    {
      NotesDiffer(a, b);
    }
    forall a, b | a in Q.spends && b in Q.spends
      ensures Nullifier(PR, a.0, a.1, a.2) == Nullifier(PR, b.0, b.1, b.2) ==> a == b
    {
      SpendsDiffer(a, b);
    }
  }

  lemma {:induction false} FoldOfZeros(c: F, l: nat)
    requires l <= 20 && c < 1_000_000
    ensures FoldTo(PR.compress, c, Zeros(), 0, l) == c + l
  {
    hide Compress;
    if l > 0 {
      FoldOfZeros(c, l - 1);
      FrontierTree.AncestorOfZero(l - 1);
      assert FoldPair(PR.compress, c, Zeros(), 0, l - 1) == (c + l - 1, 0);
      OneMore(c + l - 1, 0);
    }
  }

  lemma NoteValues(amount: F, blinding: F)
    requires blinding < 1_000_000
    ensures NoteCommitment(PR, amount, PkD(PR, KEYS), blinding) == blinding
    ensures NoteNullifier(PR, amount, PkD(PR, KEYS), KEYS.nsk, blinding, 0) == blinding + 10_000_000
  {
  }

  lemma DummyOk(root: F, blinding: F)
    requires blinding in {100_000, 200_000, 300_000}
    ensures InputOk(PR, root, blinding + 10_000_000, Dummy(blinding))
  {
    hide Compress, FoldTo, Sound, InputOk, NoteNullifier, NoteCommitment, Pow2;
    PrimitivesSound();
    Pow2Above(20);
    NoteValues(0, blinding);
    InputComplete(PR, root, blinding + 10_000_000, 0, KEYS, blinding, 0, Zeros());
  }

  lemma DummyListed(blinding: F)
    requires blinding in {100_000, 200_000, 300_000}
    ensures InputListed(PR, Q, Dummy(blinding))
  {
    hide Compress;
    assert InputCommitment(PR, Dummy(blinding)) == blinding;
    forall l: nat | l < 20 ensures FoldPair(PR.compress, blinding, Zeros(), 0, l) in PAIRS {
      FoldOfZeros(blinding, l);
      FrontierTree.AncestorOfZero(l);
    }
  }

  lemma SpendPathSiblings()
    ensures IsPath(PR.compress, Indexed(LEAVES[..2]), SpendPath(), 0)
  {
    hide Compress, Node;
    forall l: nat | l < 20
      ensures SpendPath()[l] == Node(PR.compress, Indexed(LEAVES[..2]), l, Sibling(Ancestor(0, l)))
    {
      FrontierTree.AncestorOfZero(l);
      LowNodes(2);
      if l >= 2 {
        RightIs(2, l, 1);
      }
    }
  }

  lemma SpendRoot()
    ensures Root(PR.compress, 20, Indexed(LEAVES[..2])) == 2020
    ensures Fold(PR.compress, 1000, SpendPath(), 0) == 2020
  {
    hide Compress, Node, IsPath, FoldTo;
    var t := Indexed(LEAVES[..2]);
    LeftIs(2, 20);
    SpendPathSiblings();
    Pow2Above(20);
    assert LeafAt(t, 0) == 1000;
    PathFoldsToRoot(PR.compress, t, SpendPath(), 0);
  }

  lemma SpendFoldAsked(l: nat)
    requires l < 20
    ensures FoldPair(PR.compress, 1000, SpendPath(), 0, l) in PAIRS
  {
    hide Compress, Node, IsPath;
    var t := Indexed(LEAVES[..2]);
    FrontierTree.AncestorOfZero(l);
    SpendPathSiblings();
    assert LeafAt(t, 0) == 1000;
    PathFolds(PR.compress, t, SpendPath(), 0, l);
    LowNodes(2);
    if l >= 2 {
      LeftIs(2, l);
    }
  }

  lemma SpentNoteListed()
    ensures InputListed(PR, Q, SpentNote())
  {
    hide Compress, FoldPair, Asked;
    assert InputCommitment(PR, SpentNote()) == 1000;
    forall l: nat | l < 20 ensures FoldPair(PR.compress, 1000, SpendPath(), 0, l) in PAIRS {
      SpendFoldAsked(l);
    }
  }

  lemma SpentNoteOk()
    ensures InputOk(PR, 2020, X, SpentNote())
  {
    hide Compress, FoldTo, Sound, InputOk, NoteNullifier, NoteCommitment, Pow2;
    PrimitivesSound();
    SpendRoot();
    Pow2Above(20);
    NoteValues(1, 1000);
    InputComplete(PR, 2020, X, 1, KEYS, 1000, 0, SpendPath());
  }

  // ----- the run

  const VAULT := Address(0)
  const USER := Address(1)

  const V1: seq<F> := [20, 1, 9, 3, 10_100_000, 10_200_000, 1000, 1500]
  const V2: seq<F> := [2020, P - 1, 9, 3, 10_300_000, X, 3600, 3700]

  /** Statements of three further plans: a withdrawal and a payment after the deposit, and an empty deposit. */
  const V3: seq<F> := [2020, P - 1, 9, 3, X, 10_300_000, 3600, 3700]
  const V4: seq<F> := [2020, 0, 9, 3, X, 10_300_000, 3600, 3700]
  const V5: seq<F> := [20, 0, 9, 3, 10_100_000, 10_200_000, 1000, 1000]

  /** The proof check accepts these statements and no other. */
  function World(): Host {
    Host(PR, (points: Groth16Proof, v: seq<F>) => v == V1 || v == V2 || v == V3 || v == V4
         || v == V5, (e: ExtData) => 9,
         VAULT, (a: Address) => true)
  }

  const CONFIG := Config(Address(9), Address(8), 3, 10, 10)
  const BALANCES: Balances := map[USER := 5]

  const POINTS := Groth16Proof(0, 0, 0)

  const DEPOSIT := Call(TxProof(POINTS, 20, 1, 9, [10_100_000, 10_200_000], [1000, 1500]),
                        ExtData(1, 0, USER, USER, [], []), USER, true)

  /** The withdrawal, with one nullifier listed and the other in front of the commitments. */
  const WITHDRAWAL := Call(TxProof(POINTS, 2020, P - 1, 9, [10_300_000], [X, 3600, 3700]),
                           ExtData(-1, 0, USER, USER, [], []), USER, true)

  lemma OutputsOk(amount: F, blinding: F)
    requires amount <= 1 && blinding < P
    ensures OutputOk(PR, blinding, Out(amount, blinding))
    ensures OutputNote(PR, Out(amount, blinding)) == Opening(amount, 5, blinding)
  {
  }

  lemma Balanced(pub: Public, i0: InputWitness, i1: InputWitness, o0: OutputWitness, o1: OutputWitness)
    requires InputOk(PR, pub.root, pub.null0, i0) && InputOk(PR, pub.root, pub.null1, i1)
    requires OutputOk(PR, pub.comm0, o0) && OutputOk(PR, pub.comm1, o1) && pub.null0 != pub.null1
    requires i0.amount + i1.amount + pub.publicAmount == o0.amount + o1.amount
             || i0.amount + i1.amount + pub.publicAmount == o0.amount + o1.amount + P
    requires o0.amount + o1.amount < P
    ensures Satisfies(PR, pub, Witness(i0, i1, o0, o1))
  {
    hide InputOk, OutputOk;
  }

  lemma DepositTrue()
    ensures Satisfies(PR, FromSignals(V1), DepositWitness())
  {
    DummyOk(20, 100_000);
    DummyOk(20, 200_000);
    OutputsOk(1, 1000);
    OutputsOk(0, 1500);
    hide InputOk, OutputOk, Satisfies;
    Balanced(FromSignals(V1), Dummy(100_000), Dummy(200_000), Out(1, 1000), Out(0, 1500));
  }

  lemma WithdrawalTrue()
    ensures Satisfies(PR, FromSignals(V2), WithdrawalWitness())
  {
    DummyOk(2020, 300_000);
    SpentNoteOk();
    OutputsOk(0, 3600);
    OutputsOk(0, 3700);
    hide InputOk, OutputOk, Satisfies;
    Balanced(FromSignals(V2), Dummy(300_000), SpentNote(), Out(0, 3600), Out(0, 3700));
  }

  lemma WitnessesListed()
    ensures Listed(PR, Q, DepositWitness()) && Listed(PR, Q, WithdrawalWitness())
  {
    DummyListed(100_000);
    DummyListed(200_000);
    DummyListed(300_000);
    SpentNoteListed();
    OutputsOk(1, 1000);
    OutputsOk(0, 1500);
    OutputsOk(0, 3600);
    OutputsOk(0, 3700);
    hide InputListed, OutputNote;
  }

  lemma {:induction false} Pow2Above(n: nat)
    ensures n < Pow2(n)
  {
    if n > 0 {
      Pow2Above(n - 1);
    }
  }

  lemma RootsKnown()
    ensures IsKnown(World(), [], 20) && IsKnown(World(), LEAVES[..2], 2020)
  {
    hide Compress, Node;
    var h, none := PR.compress, LEAVES[..0];
    NodeOfEmpty(h, 20, 0);
    ZeroIs(20);
    assert none == [] && none[..0] == [];
    assert FrontierTree.RootAfter(h, DEPTH, none[..0]) == 20;
    SpendRoot();
    Pow2Above(20);
    var two := LEAVES[..2];
    FrontierTree.RootAfterIsRoot(h, DEPTH, two);
    assert two[..2] == two;
    assert FrontierTree.RootAfter(h, DEPTH, two[..2]) == 2020;
  }

  lemma SignalsAre(s: State)
    requires s.config == Some(CONFIG)
    ensures StepSignals(s, DEPOSIT) == V1 && StepSignals(s, WITHDRAWAL) == V2
  {
    hide ToFrs, ToFr;
    CanonicalUnchanged(DEPOSIT.proof, 3);
    CanonicalUnchanged(WITHDRAWAL.proof, 3);
  }

  lemma Paid()
    ensures Pay(World(), BALANCES, DEPOSIT.ext, USER) == Some(map[USER := 4, VAULT := 1])
    ensures Pay(World(), map[USER := 4, VAULT := 1], WITHDRAWAL.ext, USER).Some?
  {
    assert BALANCES[USER := 4][VAULT := 1] == map[USER := 4, VAULT := 1];
  }

  lemma DepositAccepted()
    ensures Accepted(World(), Initial(CONFIG, BALANCES), DEPOSIT)
  {
    hide IsKnown, Pay, PublicInputs, Pow2, Rejection, Attempt, Compress;
    var s := Initial(CONFIG, BALANCES);
    RootsKnown();
    SignalsAre(s);
    Paid();
    Pow2Above(20);
    AcceptedIff(World(), s, DEPOSIT.proof, DEPOSIT.ext, USER, true);
  }

  /** The state after the deposit. */
  predicate Deposited(s: State) {
    && s.leaves == LEAVES[..2] && s.spent == {10_100_000, 10_200_000} && s.tvl == 1 && s.config == Some(CONFIG)
    && !s.locked && !s.paused && s.balances == map[USER := 4, VAULT := 1]
  }

  lemma DepositLeaves()
    ensures Deposited(After(World(), Initial(CONFIG, BALANCES), DEPOSIT))
  {
    hide IsKnown, PublicInputs, Pow2, Rejection, Pay, Compress;
    DepositAccepted();
    Paid();
    AcceptedEffect(World(), Initial(CONFIG, BALANCES), DEPOSIT);
    assert LEAVES[..2] == [1000, 1500];
  }

  lemma WithdrawalAccepted(s: State)
    requires Deposited(s)
    ensures Accepted(World(), s, WITHDRAWAL)
  {
    hide IsKnown, Pay, PublicInputs, Pow2, Rejection, Attempt, Compress;
    RootsKnown();
    SignalsAre(s);
    Paid();
    Pow2Above(20);
    AcceptedIff(World(), s, WITHDRAWAL.proof, WITHDRAWAL.ext, USER, true);
  }

  lemma WithdrawalLeaves(s: State)
    requires Deposited(s)
    ensures var s' := After(World(), s, WITHDRAWAL);
      s'.leaves == LEAVES && s'.spent == {10_100_000, 10_200_000, 10_300_000} && s'.tvl == 0
  {
    hide IsKnown, PublicInputs, Pow2, Rejection, Attempt, Pay, Compress, After, Accepted;
    WithdrawalAccepted(s);
    AcceptedEffect(World(), s, WITHDRAWAL);
    assert LEAVES == LEAVES[..2] + [X, 3600];
  }

  lemma TreesAreListed(n: nat)
    requires n <= 4
    ensures TreesListed(PR, Q, LEAVES[..n])
  {
    forall m: nat | m <= n ensures TreeAsked(PR.compress, Indexed(LEAVES[..n][..m]), DEPTH, Q.pairs) {
      assert LEAVES[..n][..m] == LEAVES[..m];
      TreeIsAsked(m);
    }
  }

  lemma StepsWitnessed(s: State)
    ensures Witnessed(World(), Q, Initial(CONFIG, BALANCES), DEPOSIT, DepositWitness())
    ensures Deposited(s) ==> Witnessed(World(), Q, s, WITHDRAWAL, WithdrawalWitness())
  {
    hide After, Accepted, Satisfies, Listed, PublicInputs, TreesListed, Compress;
    DepositTrue();
    WithdrawalTrue();
    WitnessesListed();
    DepositLeaves();
    TreesAreListed(2);
    TreesAreListed(4);
    assert LEAVES[..4] == LEAVES;
    SignalsAre(Initial(CONFIG, BALANCES));
    if Deposited(s) {
      SignalsAre(s);
      WithdrawalLeaves(s);
    }
  }

  /** The assumptions of the solvency theorem are met by a run that accepts a deposit. */
  lemma BackedRunIsPossible()
    ensures Sound(PR) && NoCollision(PR, Q) && GoodConfig(CONFIG)
    ensures BackedRun(World(), Q, Initial(CONFIG, BALANCES), [DEPOSIT], [DepositWitness()])
    ensures AcceptedAt(World(), Initial(CONFIG, BALANCES), [DEPOSIT], 0)
    ensures Final(World(), Initial(CONFIG, BALANCES), [DEPOSIT]).tvl == 1
  {
    hide Sound, NoCollision, Witnessed, TreesListed, After, Accepted, Compress;
    var s := Initial(CONFIG, BALANCES);
    PrimitivesSound();
    NothingCollides();
    DepositAccepted();
    DepositLeaves();
    StepsWitnessed(s);
    TreesAreListed(0);
    assert LEAVES[..0] == [];
    assert StateAt(World(), s, [DEPOSIT], 0) == s;
    assert StateAt(World(), s, [DEPOSIT], 1) == After(World(), s, DEPOSIT);
  }

  /** Openings of the four leaves; the third is a nullifier, which a listed empty note opens. */
  const NOTES: seq<Opening> := [Opening(1, 5, 1000), Opening(0, 5, 1500), Opening(0, 5, X), Opening(0, 5, 3600)]

  /** The note of amount 1 has no published nullifier after the withdrawal that spent it. */
  lemma NoteNotNullified(s: State)
    requires s.leaves == LEAVES && s.spent == {10_100_000, 10_200_000, 10_300_000}
    ensures 0 !in NullifiedLeaves(PR, Q, s, NOTES)
  {
    hide Compress, Asked;
    assert forall nk :: Nullifier(PR, 1000, 0, nk) == X;
  }

  lemma NotesOpen()
    ensures OpensAll(PR, Q, LEAVES, NOTES)
  {
    hide Compress, Asked;
  }

  lemma SumOfOne(gone: set<nat>)
    requires 0 !in gone
    ensures Sum(NOTES, gone) == 1
  {
    assert NOTES[..3] == [NOTES[0], NOTES[1], NOTES[2]];
    assert NOTES[..3][..2] == [NOTES[0], NOTES[1]];
    assert [NOTES[0], NOTES[1]][..1] == [NOTES[0]];
    assert [NOTES[0]][..0] == [];
    assert Sum([NOTES[0]], gone) == 1;
    assert Sum([NOTES[0], NOTES[1]], gone) == 1;
    assert Sum(NOTES[..3], gone) == 1;
  }

  /** Where solvency fails: a run of two accepted calls that meets every assumption of the theorem except
      that the second call lists one nullifier. Afterwards the TVL is 0, yet the deposited note, worth 1 and
      just spent, has no published nullifier. */
  lemma SolvencyNeedsTwoNullifiers()
    ensures var s0, steps, ws := Initial(CONFIG, BALANCES), [DEPOSIT, WITHDRAWAL],
            [DepositWitness(), WithdrawalWitness()];
      && NoCollision(PR, Q) && GoodConfig(CONFIG) && 0 <= BalanceOf(BALANCES, World().self)
      && (forall k: nat :: k < 2 ==> AcceptedAt(World(), s0, steps, k))
      && (forall k: nat :: k < 2 ==>
            && FromOthers(World(), steps[k])
            && Witnessed(World(), Q, StateAt(World(), s0, steps, k), steps[k], ws[k]))
      && |steps[0].proof.inputNullifiers| == 2 && |steps[1].proof.inputNullifiers| == 1
      && var s := Final(World(), s0, steps);
         && s.tvl == 0
         && OpensAll(PR, Q, s.leaves, NOTES) && Sum(NOTES, NullifiedLeaves(PR, Q, s, NOTES)) == 1
  {
    hide NoCollision, Witnessed, After, Accepted, Compress, OpensAll, Sum, NullifiedLeaves;
    var s0, steps := Initial(CONFIG, BALANCES), [DEPOSIT, WITHDRAWAL];
    var s1 := After(World(), s0, DEPOSIT);
    var s2 := After(World(), s1, WITHDRAWAL);
    NothingCollides();
    DepositAccepted();
    DepositLeaves();
    WithdrawalAccepted(s1);
    WithdrawalLeaves(s1);
    StepsWitnessed(s1);
    assert StateAt(World(), s0, steps, 0) == s0;
    assert StateAt(World(), s0, steps, 1) == s1;
    assert StateAt(World(), s0, steps, 2) == s2;
    NotesOpen();
    assert |NOTES| == |s2.leaves|;
    NoteNotNullified(s2);
    SumOfOne(NullifiedLeaves(PR, Q, s2, NOTES));
  }
}
