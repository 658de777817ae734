/** Wallet, circuit and vault fit together: what the wallet builds satisfies the circuit, and the vault
    accepts it whenever its own state leaves room for it. */
module WalletCompleteness {
  import opened Basics
  import opened PaddedTree
  import opened MerklePath
  import opened Field
  import opened Circuit
  import opened VaultSpec
  import opened WalletPlans
  import SparseTree

  /** An input the circuit can take: keys and amount in range and, unless it is a dummy, a path from its
      commitment to the root. */
  ghost predicate Provable(pr: Primitives, root: F, n: InNote) {
    && n.keys.ask < L && n.keys.nsk < L && n.amount < AMOUNT_BOUND
    && |n.pathElements| == LEVELS && n.pathIndices < Pow2(LEVELS)
    && (n.amount != 0 ==>
          Fold(pr.compress, NoteCommitment(pr, n.amount, PkD(pr, n.keys), n.blinding), n.pathElements, n.pathIndices)
              == root)
  }

  predicate Receivable(pr: Primitives, o: OutNote) {
    pr.onCurve(o.pkD) && 0 <= o.amount < AMOUNT_BOUND
  }

  function InputWitnessFor(pr: Primitives, n: InNote): InputWitness {
    InputWitnessOf(pr, n.amount, n.keys, n.blinding, n.pathIndices, n.pathElements)
  }

  function OutputWitnessFor(o: OutNote): OutputWitness
    requires o.amount >= 0
  {
    OutputWitness(o.amount, o.pkD, o.blinding)
  }

  predicate TwoByTwo(p: Plan) {
    |p.inputs| == 2 == |p.outputs| && Payable(p.outputs)
  }

  function WitnessFor(pr: Primitives, p: Plan): Witness
    requires TwoByTwo(p)
  {
    Witness(InputWitnessFor(pr, p.inputs[0]), InputWitnessFor(pr, p.inputs[1]),
            OutputWitnessFor(p.outputs[0]), OutputWitnessFor(p.outputs[1]))
  }

  /** The plan's proof values come from its own inputs and outputs. */
  ghost predicate Consistent(out: Outside, p: Plan) {
    TwoByTwo(p) && p.proof == ProofValuesOf(out, p.proof.root, p.inputs, p.outputs, p.ext)
  }

  /** A plan whose parts the circuit can take. */
  ghost predicate Sendable(out: Outside, p: Plan) {
    && Consistent(out, p) && Balanced(p)
    && (forall n :: n in p.inputs ==> Provable(out.pr, p.proof.root, n))
    && (forall o :: o in p.outputs ==> Receivable(out.pr, o))
  }

  function PublicFor(p: Plan, domain: F): Public
    requires |p.proof.nullifiers| == 2 == |p.proof.commitments| && p.proof.publicAmount >= 0
  {
    Public(p.proof.root, p.proof.publicAmount, p.proof.extDataHash, domain,
           p.proof.nullifiers[0], p.proof.nullifiers[1], p.proof.commitments[0], p.proof.commitments[1])
  }

  lemma InputSatisfies(pr: Primitives, root: F, n: InNote)
    requires Sound(pr) && Provable(pr, root, n)
    ensures InputOk(pr, root, InputNullifier(pr, n), InputWitnessFor(pr, n))
  {
    InputComplete(pr, root, InputNullifier(pr, n), n.amount, n.keys, n.blinding, n.pathIndices, n.pathElements);
  }

  /** The wallet's witness passes an output slot exactly when the key is on the curve and the amount in range. */
  lemma OutputSatisfies(pr: Primitives, o: OutNote)
    requires 0 <= o.amount
    ensures OutputOk(pr, OutputCommitment(pr, o), OutputWitnessFor(o)) <==> pr.onCurve(o.pkD) && o.amount < AMOUNT_BOUND
  {
  }

  lemma ProofValuesAt(out: Outside, p: Plan)
    requires Consistent(out, p)
    ensures |p.proof.nullifiers| == 2 == |p.proof.commitments|
    ensures p.proof.nullifiers[0] == InputNullifier(out.pr, p.inputs[0])
            && p.proof.nullifiers[1] == InputNullifier(out.pr, p.inputs[1])
    ensures p.proof.commitments[0] == OutputCommitment(out.pr, p.outputs[0])
            && p.proof.commitments[1] == OutputCommitment(out.pr, p.outputs[1])
  {
  }

  /** Completeness: the witness the wallet hands to the prover satisfies the circuit for the public
      values it submits, as soon as the two nullifiers came out different. */
  lemma PlanSatisfiesCircuit(out: Outside, p: Plan, domain: F)
    requires Sound(out.pr) && Sendable(out, p) && p.proof.publicAmount >= 0
    requires p.proof.nullifiers[0] != p.proof.nullifiers[1]
    ensures Satisfies(out.pr, PublicFor(p, domain), WitnessFor(out.pr, p))
  {
    hide Sound, InputOk, OutputOk, Provable, ProofValuesOf, InputNullifier, OutputCommitment;
    var pr := out.pr;
    ProofValuesAt(out, p);
    assert p.inputs[0] in p.inputs && p.inputs[1] in p.inputs && p.outputs[0] in p.outputs && p.outputs[1] in p.outputs;
    InputSatisfies(pr, p.proof.root, p.inputs[0]);
    InputSatisfies(pr, p.proof.root, p.inputs[1]);
    OutputSatisfies(pr, p.outputs[0]);
    OutputSatisfies(pr, p.outputs[1]);
    SumOfTwo(p.inputs, p.outputs);
  }

  /** Within i128 the wallet's public amount is the vault's. */
  lemma PublicAmountsAgree(ext: Ext)
    requires InI128(ext.extAmount - ext.fee)
    ensures WalletPublicAmount(ext) == CalcPublicAmount(ext.extAmount - ext.fee)
  {
  }

  // ----- the builders make sendable plans

  lemma {:induction false} MatchesGenuine(cs: seq<SparseTree.Commitment>, value: F)
    ensures forall c :: c in Matches(cs, value) <==> c in cs && c.value == value
  {
    if cs != [] {
      MatchesGenuine(cs[1..], value);
      assert cs == [cs[0]] + cs[1..];
    }
  }

  /** A located note is provable under the tree's root: its leaf is where the wallet says, and the
      position packed from its path is the leaf index. */
  lemma RealInputProvable(out: Outside, w: Wallet, cs: seq<SparseTree.Commitment>, leaves: seq<F>, n: Note)
    requires Sound(out.pr) && WalletOk(out.pr, w) && SparseTree.Genuine(cs, leaves) && |leaves| <= Pow2(LEVELS)
    requires n.amount < AMOUNT_BOUND && LeafIndexOf(out.pr, w, cs, n).Success?
    ensures var i := LeafIndexOf(out.pr, w, cs, n).value;
      var m := SparseTree.Assigned(cs);
      && i < |leaves| && leaves[i] == CommitmentOf(out.pr, w, n)
      && Provable(out.pr, Root(out.pr.compress, LEVELS, m), RealInput(out.pr, w, m, n, i))
  {
    hide Sound, Node, FoldTo, Pow2, DiversifiedKey, NoteCommitment, SparseTree.Assigned;
    var m := SparseTree.Assigned(cs);
    var c := CommitmentOf(out.pr, w, n);
    MatchesGenuine(cs, c);
    var hit := Matches(cs, c)[0];
    assert hit in Matches(cs, c);
    SparseTree.AssignedGenuine(cs, leaves);
    var i := hit.leafIndex;
    assert SparseTree.Mentions(cs, i);
    var input := RealInput(out.pr, w, m, n, i);
    PathFoldsToRoot(out.pr.compress, m, input.pathElements, i);
    assert PkD(out.pr, input.keys) == NotePkD(out.pr, w, n);
  }

  lemma DummyProvable(pr: Primitives, w: Wallet, root: F, blinding: F)
    requires WalletOk(pr, w)
    ensures Provable(pr, root, DummyInput(w, blinding))
  {
  }

  /** Dummies with different blindings publish different nullifiers, as long as the commitments of the two, and then
      the nullifiers of those commitments, do not collide. */
  lemma DummiesDiffer(pr: Primitives, w: Wallet, b0: F, b1: F)
    requires b0 != b1
    requires var pkD := PkD(pr, DummyInput(w, b0).keys);
      NoteCommitment(pr, 0, pkD, b0) == NoteCommitment(pr, 0, pkD, b1) ==> b0 == b1
    requires var pkD, nk := PkD(pr, DummyInput(w, b0).keys), NkFold(pr, w.nsk);
      var c0, c1 := NoteCommitment(pr, 0, pkD, b0), NoteCommitment(pr, 0, pkD, b1);
      Nullifier(pr, c0, 0, nk) == Nullifier(pr, c1, 0, nk) ==> c0 == c1
    ensures InputNullifier(pr, DummyInput(w, b0)) != InputNullifier(pr, DummyInput(w, b1))
  {
    hide NoteCommitment, PkD;
  }

  predicate Amounts(notes: seq<Note>) {
    forall n :: n in notes ==> n.amount < AMOUNT_BOUND
  }

  lemma SpendInputsProvable(out: Outside, w: Wallet, cs: seq<SparseTree.Commitment>, leaves: seq<F>, notes: seq<Note>,
                            dummy: F)
    requires Sound(out.pr) && WalletOk(out.pr, w) && SparseTree.Genuine(cs, leaves) && |leaves| <= Pow2(LEVELS)
    requires Amounts(notes) && SpendInputsFor(out, w, cs, notes, dummy).Success?
    ensures var s := SpendInputsFor(out, w, cs, notes, dummy).value;
      && |s.inputs| == 2 && out.isKnownRoot(s.root)
      && s.root == Root(out.pr.compress, LEVELS, SparseTree.Assigned(cs))
      && forall n :: n in s.inputs ==> Provable(out.pr, s.root, n)
  {
    hide Sound, Provable, LeafIndexOf, WalletOk;
    var s := SpendInputsFor(out, w, cs, notes, dummy).value;
    assert notes[0] in notes;
    RealInputProvable(out, w, cs, leaves, notes[0]);
    if |notes| == 2 {
      assert notes[1] in notes;
      RealInputProvable(out, w, cs, leaves, notes[1]);
    } else {
      DummyProvable(out.pr, w, s.root, dummy);
    }
  }

  lemma OwnKeyOnCurve(pr: Primitives, w: Wallet)
    requires Sound(pr) && WalletOk(pr, w)
    ensures pr.onCurve(w.pkD)
  {
  }

  lemma ShieldSendable(out: Outside, w: Wallet, root: F, amount: nat, dummy0: F, dummy1: F, b0: F, b1: F)
    requires Sound(out.pr) && WalletOk(out.pr, w) && amount < AMOUNT_BOUND
    ensures Sendable(out, Shield(out, w, root, amount, dummy0, dummy1, b0, b1))
  {
    hide Sound, Provable, Balanced;
    ShieldBalances(out, w, root, amount, dummy0, dummy1, b0, b1);
    OwnKeyOnCurve(out.pr, w);
    DummyProvable(out.pr, w, root, dummy0);
    DummyProvable(out.pr, w, root, dummy1);
  }

  lemma WithdrawSendable(out: Outside, w: Wallet, cs: seq<SparseTree.Commitment>, leaves: seq<F>, notes: seq<Note>,
                         amount: int,
                         relay: bool, quote: nat, relayer: Address, dummy: F, b0: F, b1: F)
    requires Sound(out.pr) && WalletOk(out.pr, w) && SparseTree.Genuine(cs, leaves) && |leaves| <= Pow2(LEVELS)
    requires Amounts(notes)
    requires Withdraw(out, w, cs, notes, amount, relay, quote, relayer, dummy, b0, b1).Success?
    requires SumNotes(notes) - amount - (if relay then quote else 0) < AMOUNT_BOUND
    ensures Sendable(out, Withdraw(out, w, cs, notes, amount, relay, quote, relayer, dummy, b0, b1).value)
  {
    hide Sound, Provable, Balanced, SpendInputsFor, Pow2;
    WithdrawBalances(out, w, cs, notes, amount, relay, quote, relayer, dummy, b0, b1);
    SpendInputsProvable(out, w, cs, leaves, notes, dummy);
    OwnKeyOnCurve(out.pr, w);
  }

  lemma TransferSendable(out: Outside, w: Wallet, cs: seq<SparseTree.Commitment>, leaves: seq<F>, notes: seq<Note>,
                         amount: nat,
                         to: Point, toD: F, quote: nat, relayer: Address, dummy: F, b0: F, b1: F)
    requires Sound(out.pr) && WalletOk(out.pr, w) && SparseTree.Genuine(cs, leaves) && |leaves| <= Pow2(LEVELS)
    requires Amounts(notes) && out.pr.onCurve(to) && SumNotes(notes) < AMOUNT_BOUND
    requires TransferTo(out, w, cs, notes, amount, to, toD, quote, relayer, dummy, b0, b1).Success?
    ensures Sendable(out, TransferTo(out, w, cs, notes, amount, to, toD, quote, relayer, dummy, b0, b1).value)
  {
    hide Sound, Provable, Balanced, SpendInputsFor, Pow2;
    TransferBalances(out, w, cs, notes, amount, to, toD, quote, relayer, dummy, b0, b1);
    SpendInputsProvable(out, w, cs, leaves, notes, dummy);
    OwnKeyOnCurve(out.pr, w);
  }

  // ----- the vault accepts

  predicate InRange(e: Ext) {
    InI128(e.extAmount) && InI128(e.fee) && 0 <= e.fee && InI128(e.extAmount - e.fee)
  }

  function ExtOf(e: Ext): ExtData
    requires InRange(e)
  {
    ExtData(e.extAmount, e.fee, e.recipient, e.relayer, e.encryptedOutput0, e.encryptedOutput1)
  }

  function TxProofOf(p: Plan, points: Groth16Proof): TxProof
    requires p.proof.publicAmount >= 0
  {
    TxProof(points, p.proof.root, p.proof.publicAmount, p.proof.extDataHash, p.proof.nullifiers, p.proof.commitments)
  }

  /** The vault takes such a plan: open for business, limits and capacity not exceeded, nullifiers unspent,
      token transfers possible. */
  ghost predicate Open(host: Host, s: State, p: Plan, sender: Address)
    requires InRange(p.ext)
  {
    var ext := ExtOf(p.ext);
    && !s.locked && !s.paused && s.config.Some? && Canonical(s.config.value.domain)
    && I128_MIN < ext.extAmount <= s.config.value.maxDeposit
    && InI128(s.tvl + Signed(ext)) && 0 <= s.tvl + Signed(ext) <= s.config.value.tvlCap
    && |s.leaves| + 2 <= Pow2(DEPTH)
    && (forall n :: n in p.proof.nullifiers ==> n !in s.spent)
    && Pay(host, s.balances, ext, sender).Some?
  }

  /** The vault has room for the plan: it takes such a plan, and still knows the root. */
  ghost predicate Room(host: Host, s: State, p: Plan, sender: Address)
    requires InRange(p.ext)
  {
    Open(host, s, p, sender) && IsKnown(host, s.leaves, p.proof.root) && Canonical(p.proof.root)
  }

  /** Host and wallet compute with the same primitives and the same canonical ext data hash, and the
      proof system proves what is true: some proof is accepted for a satisfied circuit. */
  ghost predicate SameWorld(host: Host, out: Outside, p: Plan, domain: F, points: Groth16Proof)
    requires InRange(p.ext) && Consistent(out, p) && p.proof.publicAmount >= 0
  {
    && host.pr == out.pr
    && host.hashExtData(ExtOf(p.ext)) == out.hashExtData(p.ext) && Canonical(out.hashExtData(p.ext))
    && (Satisfies(host.pr, PublicFor(p, domain), WitnessFor(host.pr, p)) ==>
          host.verify(points, Signals(PublicFor(p, domain))))
  }

  lemma TwoToFrs(xs: seq<F>)
    requires |xs| == 2 && forall x :: x in xs ==> Canonical(x)
    ensures ToFrs(xs) == [xs[0], xs[1]] == xs
  {
    assert xs[0] in xs && xs[1] in xs;
  }

  /** What the vault hands to the proof check is what the wallet proved. */
  lemma SameSignals(p: Plan, points: Groth16Proof, domain: F)
    requires p.proof.publicAmount >= 0 && |p.proof.nullifiers| == 2 == |p.proof.commitments|
    requires Canonical(p.proof.root) && Canonical(p.proof.publicAmount) && Canonical(p.proof.extDataHash)
             && Canonical(domain)
    requires forall x :: x in p.proof.nullifiers + p.proof.commitments ==> Canonical(x)
    ensures PublicInputs(TxProofOf(p, points), domain) == Signals(PublicFor(p, domain))
  {
    hide ToFrs, InRange;
    var ns, cs := p.proof.nullifiers, p.proof.commitments;
    TwoToFrs(ns);
    TwoToFrs(cs);
  }

  lemma HashesCanonical(out: Outside, p: Plan)
    requires Sound(out.pr) && Consistent(out, p)
    ensures forall n :: n in p.proof.nullifiers ==> Canonical(n)
    ensures forall c :: c in p.proof.commitments ==> Canonical(c)
  {
  }

  /** End to end: a sendable plan with two different nullifiers is accepted by a vault that has room. */
  lemma PlanAccepted(host: Host, out: Outside, s: State, p: Plan, points: Groth16Proof, sender: Address)
    requires Sound(out.pr) && Sendable(out, p) && InRange(p.ext) && p.proof.publicAmount >= 0
    requires p.proof.nullifiers[0] != p.proof.nullifiers[1]
    requires s.config.Some? && SameWorld(host, out, p, s.config.value.domain, points) && Room(host, s, p, sender)
    ensures Transact(host, s, TxProofOf(p, points), ExtOf(p.ext), sender, true).1 == Ok
  {
    hide Sound, Satisfies, Balanced, Pay, IsKnown, PublicInputs;
    PlanSatisfiesCircuit(out, p, s.config.value.domain);
    HashesCanonical(out, p);
    PublicAmountsAgree(p.ext);
    SameSignals(p, points, s.config.value.domain);
    AcceptedIff(host, s, TxProofOf(p, points), ExtOf(p.ext), sender, true);
  }
}
