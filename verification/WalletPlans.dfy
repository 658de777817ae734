/** The wallet's spend plans: which notes go in, what comes out, and the public values the proof binds.
    Randomness, encryption, the fee quote and the root check against the vault are parameters. */
module WalletPlans {
  import opened Basics
  import opened PaddedTree
  import opened MerklePath
  import opened Field
  import opened Circuit
  import SparseTree
  import VaultSpec

  datatype Wallet = Wallet(ask: nat, nsk: nat, ivk: nat, d: F, pkD: Point, address: VaultSpec.Address)

  datatype Note = Note(amount: nat, blinding: F, d: F, commitment: F, leafIndex: int, spent: bool)

  datatype InNote = InNote(amount: nat, keys: Keys, blinding: F, pathIndices: nat, pathElements: seq<F>)

  datatype OutNote = OutNote(amount: int, pkD: Point, blinding: F)

  datatype Ext = Ext(extAmount: int, fee: int, recipient: VaultSpec.Address, relayer: VaultSpec.Address,
                     encryptedOutput0: Bytes, encryptedOutput1: Bytes)

  datatype ProofValues = ProofValues(root: F, publicAmount: int, extDataHash: F, nullifiers: seq<F>,
                                     commitments: seq<F>)

  datatype Plan = Plan(inputs: seq<InNote>, outputs: seq<OutNote>, proof: ProofValues, ext: Ext,
                       selfSign: bool, spent: seq<F>, added: seq<Note>)

  datatype PlanError = WrongNoteCount | SameNoteTwice | NotFound | Ambiguous | UnknownRoot | ExceedsNotes

  datatype Result<+T> = Success(value: T) | Failure(error: PlanError) {
    predicate IsFailure() { Failure? }
    function PropagateFailure<U>(): Result<U> requires Failure? { Failure(error) }
    function Extract(): T requires Success? { value }
  }

  /** What the plan builders take from outside: primitives, the ext data hash, encryption, and the
      vault's answer about a root. */
  datatype Outside = Outside(pr: Primitives, hashExtData: Ext -> F,
                             encrypt: (Point, F, int, F) -> Bytes, isKnownRoot: F -> bool)

  /** A loaded wallet's keys belong together. */
  predicate WalletOk(pr: Primitives, w: Wallet) {
    && w.ask < L && w.nsk < L
    && w.ivk == IvkHash(pr, w.ask, w.nsk) % L
    && w.pkD == DiversifiedKey(pr, w.ivk, w.d)
  }

  function KeysFor(w: Wallet, d: F): Keys {
    Keys(w.ask, w.nsk, d)
  }

  function NotePkD(pr: Primitives, w: Wallet, n: Note): Point {
    DiversifiedKey(pr, w.ivk, n.d)
  }

  function CommitmentOf(pr: Primitives, w: Wallet, n: Note): F {
    NoteCommitment(pr, n.amount, NotePkD(pr, w, n), n.blinding)
  }

  /** The wallet's own embedding of extAmount - fee, on unbounded integers. */
  function WalletPublicAmount(ext: Ext): int {
    var signed := ext.extAmount - ext.fee;
    if signed >= 0 then signed else P + signed
  }

  // ----- prover

  function InputNullifier(pr: Primitives, n: InNote): F {
    NoteNullifier(pr, n.amount, PkD(pr, n.keys), n.keys.nsk, n.blinding, n.pathIndices)
  }

  function OutputCommitment(pr: Primitives, n: OutNote): F
    requires n.amount >= 0
  {
    NoteCommitment(pr, n.amount, n.pkD, n.blinding)
  }

  predicate Payable(outputs: seq<OutNote>) {
    forall o :: o in outputs ==> o.amount >= 0
  }

  function ProofValuesOf(out: Outside, root: F, inputs: seq<InNote>, outputs: seq<OutNote>, ext: Ext): ProofValues
    requires Payable(outputs)
  {
    ProofValues(root, WalletPublicAmount(ext), out.hashExtData(ext),
                seq(|inputs|, k requires 0 <= k < |inputs| => InputNullifier(out.pr, inputs[k])),
                seq(|outputs|, k requires 0 <= k < |outputs| => OutputCommitment(out.pr, outputs[k])))
  }

  method BuildTransaction(out: Outside, root: F, inputs: seq<InNote>, outputs: seq<OutNote>, ext: Ext)
    returns (proof: ProofValues)
    requires Payable(outputs)
    ensures proof == ProofValuesOf(out, root, inputs, outputs, ext)
  {
    var nullifiers: seq<F> := [];
    for k := 0 to |inputs|
      invariant nullifiers == seq(k, j requires 0 <= j < k => InputNullifier(out.pr, inputs[j]))
    {
      var n := inputs[k];
      var commitment := NoteCommitment(out.pr, n.amount, PkD(out.pr, n.keys), n.blinding);
      nullifiers := nullifiers + [Nullifier(out.pr, commitment, n.pathIndices, NkFold(out.pr, n.keys.nsk))];
    }
    var commitments: seq<F> := [];
    for k := 0 to |outputs|
      invariant commitments == seq(k, j requires 0 <= j < k => OutputCommitment(out.pr, outputs[j]))
    {
      assert outputs[k] in outputs;
      commitments := commitments + [OutputCommitment(out.pr, outputs[k])];
    }
    proof := ProofValues(root, WalletPublicAmount(ext), out.hashExtData(ext), nullifiers, commitments);
  }

  // ----- inputs

  function Matches(cs: seq<SparseTree.Commitment>, value: F): seq<SparseTree.Commitment> {
    if cs == [] then []
    else (if cs[0].value == value then [cs[0]] else []) + Matches(cs[1..], value)
  }

  /** Position of the note's commitment among the leaves; ambiguous when it occurs more than once. */
  function LeafIndexOf(pr: Primitives, w: Wallet, cs: seq<SparseTree.Commitment>, n: Note): Result<nat> {
    var m := Matches(cs, CommitmentOf(pr, w, n));
    if |m| == 0 then Failure(NotFound) else if |m| > 1 then Failure(Ambiguous) else Success(m[0].leafIndex)
  }

  ghost function PathTo(pr: Primitives, m: map<nat, F>, idx: nat): (p: seq<F>)
    ensures |p| == LEVELS && IsPath(pr.compress, m, p, idx)
  {
    PathIn(pr.compress, m, LEVELS, idx)
  }

  /** Paths are determined by the leaves: what the sparse tree reads is this path. */
  lemma PathUnique(pr: Primitives, m: map<nat, F>, idx: nat, p: seq<F>)
    requires |p| == LEVELS && IsPath(pr.compress, m, p, idx)
    ensures p == PathTo(pr, m, idx)
  {
    assert forall l: nat :: l < LEVELS ==> p[l] == PathTo(pr, m, idx)[l];
  }

  ghost function RealInput(pr: Primitives, w: Wallet, m: map<nat, F>, n: Note, idx: nat): InNote {
    InNote(n.amount, KeysFor(w, n.d), n.blinding, idx, PathTo(pr, m, idx))
  }

  /** A zero note with a fresh blinding fills an unused slot; its path is never checked. */
  function DummyInput(w: Wallet, blinding: F): InNote {
    InNote(0, KeysFor(w, w.d), blinding, 0, seq(LEVELS, _ => 0))
  }

  datatype SpendInputs = SpendInputs(inputs: seq<InNote>, root: F)

  /** One or two notes against one root the vault knows; a dummy in the second slot if needed. */
  ghost function SpendInputsFor(out: Outside, w: Wallet, cs: seq<SparseTree.Commitment>, notes: seq<Note>,
                                dummyBlinding: F)
    : Result<SpendInputs>
  {
    if |notes| < 1 || |notes| > 2 then Failure(WrongNoteCount)
    else if |notes| == 2 && notes[0].commitment == notes[1].commitment then Failure(SameNoteTwice)
    else
      var m := SparseTree.Assigned(cs);
      var root := Root(out.pr.compress, LEVELS, m);
      var i0 :- LeafIndexOf(out.pr, w, cs, notes[0]);
      var second :-
        if |notes| == 1 then Success(DummyInput(w, dummyBlinding))
        else
          var i1 :- LeafIndexOf(out.pr, w, cs, notes[1]);
          Success(RealInput(out.pr, w, m, notes[1], i1));
      if !out.isKnownRoot(root) then Failure(UnknownRoot)
      else Success(SpendInputs([RealInput(out.pr, w, m, notes[0], i0), second], root))
  }

  function SumNotes(notes: seq<Note>): nat {
    if notes == [] then 0 else notes[0].amount + SumNotes(notes[1..])
  }

  /** No two notes with one commitment. */
  predicate Distinct(notes: seq<Note>) {
    forall i, j :: 0 <= i < j < |notes| ==> notes[i].commitment != notes[j].commitment
  }

  function SumIn(inputs: seq<InNote>): nat {
    if inputs == [] then 0 else inputs[0].amount + SumIn(inputs[1..])
  }

  function SumOut(outputs: seq<OutNote>): int {
    if outputs == [] then 0 else outputs[0].amount + SumOut(outputs[1..])
  }

  function CommitmentsOf(notes: seq<Note>): (cs: seq<F>)
  {
    seq(|notes|, k requires 0 <= k < |notes| => notes[k].commitment)
  }

  function SelfOut(w: Wallet, amount: int, blinding: F): OutNote {
    OutNote(amount, w.pkD, blinding)
  }

  function AddedNote(amount: nat, blinding: F, d: F, commitment: F): Note {
    Note(amount, blinding, d, commitment, -1, false)
  }

  // ----- plans

  function Shield(out: Outside, w: Wallet, root: F, amount: nat, dummy0: F, dummy1: F, b0: F, b1: F): Plan {
    var inputs := [DummyInput(w, dummy0), DummyInput(w, dummy1)];
    var outputs := [SelfOut(w, amount, b0), SelfOut(w, 0, b1)];
    var ext := Ext(amount, 0, w.address, w.address, out.encrypt(w.pkD, w.d, amount, b0),
                   out.encrypt(w.pkD, w.d, 0, b1));
    var proof := ProofValuesOf(out, root, inputs, outputs, ext);
    Plan(inputs, outputs, proof, ext, true, [], [AddedNote(amount, b0, w.d, proof.commitments[0])])
  }

  /** `relay` off means the wallet signs itself and pays no fee. */
  ghost function Withdraw(out: Outside, w: Wallet, cs: seq<SparseTree.Commitment>, notes: seq<Note>, amount: int,
                          relay: bool, quote: nat, relayer: VaultSpec.Address, dummy: F, b0: F, b1: F): Result<Plan>
  {
    var s :- SpendInputsFor(out, w, cs, notes, dummy);
    var fee := if relay then quote else 0;
    var change := SumNotes(notes) - amount - fee;
    if change < 0 then Failure(ExceedsNotes)
    else
      var outputs := [SelfOut(w, change, b0), SelfOut(w, 0, b1)];
      var ext := Ext(-amount, fee, w.address, if relay then relayer else w.address,
                     out.encrypt(w.pkD, w.d, change, b0), out.encrypt(w.pkD, w.d, 0, b1));
      var proof := ProofValuesOf(out, s.root, s.inputs, outputs, ext);
      Success(Plan(s.inputs, outputs, proof, ext, !relay, CommitmentsOf(notes),
                   if change > 0 then [AddedNote(change, b0, w.d, proof.commitments[0])] else []))
  }

  /** Amount to the recipient's key, change back; always relayed. */
  ghost function TransferTo(out: Outside, w: Wallet, cs: seq<SparseTree.Commitment>, notes: seq<Note>, amount: nat,
                            to: Point, toD: F, quote: nat, relayer: VaultSpec.Address, dummy: F, b0: F,
                                b1: F): Result<Plan>
  {
    var change := SumNotes(notes) - amount - quote;
    if change < 0 then Failure(ExceedsNotes)
    else
      var s :- SpendInputsFor(out, w, cs, notes, dummy);
      var outputs := [OutNote(amount, to, b0), SelfOut(w, change, b1)];
      var ext := Ext(0, quote, relayer, relayer, out.encrypt(to, toD, amount, b0), out.encrypt(w.pkD, w.d, change, b1));
      var proof := ProofValuesOf(out, s.root, s.inputs, outputs, ext);
      Success(Plan(s.inputs, outputs, proof, ext, false, CommitmentsOf(notes),
                   if change > 0 then [AddedNote(change, b1, w.d, proof.commitments[1])] else []))
  }

  // ----- every plan balances

  /** Inputs, outputs and the public amount are in balance, over the field and over the integers, no
      output is negative, and a self-signed plan carries the zero fee its submission hard-codes. */
  predicate Balanced(p: Plan) {
    && |p.inputs| == 2 == |p.outputs| && Payable(p.outputs)
    && SumIn(p.inputs) + p.ext.extAmount - p.ext.fee == SumOut(p.outputs)
    && (SumIn(p.inputs) + p.proof.publicAmount) % P == SumOut(p.outputs) % P
    && (p.selfSign ==> p.ext.fee == 0)
  }

  lemma PublicAmountCongruent(ext: Ext, sumIn: int, sumOut: int)
    requires sumIn + ext.extAmount - ext.fee == sumOut
    ensures (sumIn + WalletPublicAmount(ext)) % P == sumOut % P
  {
    if ext.extAmount - ext.fee < 0 {
      ModAddShift(sumOut);
    }
  }

  lemma ShieldBalances(out: Outside, w: Wallet, root: F, amount: nat, dummy0: F, dummy1: F, b0: F, b1: F)
    ensures Balanced(Shield(out, w, root, amount, dummy0, dummy1, b0, b1))
  {
    var p := Shield(out, w, root, amount, dummy0, dummy1, b0, b1);
    SumOfTwo(p.inputs, p.outputs);
    PublicAmountCongruent(p.ext, SumIn(p.inputs), SumOut(p.outputs));
  }

  lemma SumOfTwo(inputs: seq<InNote>, outputs: seq<OutNote>)
    requires |inputs| == 2 == |outputs|
    ensures SumIn(inputs) == inputs[0].amount + inputs[1].amount
    ensures SumOut(outputs) == outputs[0].amount + outputs[1].amount
  {
    assert inputs[1..] == [inputs[1]] && outputs[1..] == [outputs[1]];
    assert [inputs[1]][1..] == [] && [outputs[1]][1..] == [];
    assert SumIn([inputs[1]]) == inputs[1].amount + SumIn([]);
    assert SumOut([outputs[1]]) == outputs[1].amount + SumOut([]);
  }

  lemma InputsSumToNotes(out: Outside, w: Wallet, cs: seq<SparseTree.Commitment>, notes: seq<Note>, dummy: F)
    requires SpendInputsFor(out, w, cs, notes, dummy).Success?
    ensures var s := SpendInputsFor(out, w, cs, notes, dummy).value;
      |s.inputs| == 2 && SumIn(s.inputs) == SumNotes(notes)
  {
    var s := SpendInputsFor(out, w, cs, notes, dummy).value;
    assert s.inputs[1..] == [s.inputs[1]];
    assert SumIn([s.inputs[1]]) == s.inputs[1].amount;
    if |notes| == 1 {
      assert notes[1..] == [];
    } else {
      assert notes[1..] == [notes[1]];
      assert SumNotes([notes[1]]) == notes[1].amount;
    }
  }

  lemma WithdrawBalances(out: Outside, w: Wallet, cs: seq<SparseTree.Commitment>, notes: seq<Note>, amount: int,
                         relay: bool, quote: nat, relayer: VaultSpec.Address, dummy: F, b0: F, b1: F)
    requires Withdraw(out, w, cs, notes, amount, relay, quote, relayer, dummy, b0, b1).Success?
    ensures Balanced(Withdraw(out, w, cs, notes, amount, relay, quote, relayer, dummy, b0, b1).value)
  {
    hide SpendInputsFor;
    var p := Withdraw(out, w, cs, notes, amount, relay, quote, relayer, dummy, b0, b1).value;
    InputsSumToNotes(out, w, cs, notes, dummy);
    SumOfTwo(p.inputs, p.outputs);
    PublicAmountCongruent(p.ext, SumIn(p.inputs), SumOut(p.outputs));
  }

  lemma TransferBalances(out: Outside, w: Wallet, cs: seq<SparseTree.Commitment>, notes: seq<Note>, amount: nat,
                         to: Point, toD: F, quote: nat, relayer: VaultSpec.Address, dummy: F, b0: F, b1: F)
    requires TransferTo(out, w, cs, notes, amount, to, toD, quote, relayer, dummy, b0, b1).Success?
    ensures Balanced(TransferTo(out, w, cs, notes, amount, to, toD, quote, relayer, dummy, b0, b1).value)
  {
    hide SpendInputsFor;
    var p := TransferTo(out, w, cs, notes, amount, to, toD, quote, relayer, dummy, b0, b1).value;
    InputsSumToNotes(out, w, cs, notes, dummy);
    SumOfTwo(p.inputs, p.outputs);
    PublicAmountCongruent(p.ext, SumIn(p.inputs), SumOut(p.outputs));
  }

  /** Exactly when a withdraw is refused: two notes at most, found once each, under a known root, and
      amount plus fee covered. */
  lemma WithdrawSucceedsIff(out: Outside, w: Wallet, cs: seq<SparseTree.Commitment>, notes: seq<Note>, amount: int,
                            relay: bool, quote: nat, relayer: VaultSpec.Address, dummy: F, b0: F, b1: F)
    ensures Withdraw(out, w, cs, notes, amount, relay, quote, relayer, dummy, b0, b1).Success? <==>
            && 1 <= |notes| <= 2
            && (|notes| == 2 ==> notes[0].commitment != notes[1].commitment)
            && (forall n :: n in notes ==> |Matches(cs, CommitmentOf(out.pr, w, n))| == 1)
            && out.isKnownRoot(Root(out.pr.compress, LEVELS, SparseTree.Assigned(cs)))
            && amount + (if relay then quote else 0) <= SumNotes(notes)
  {
    if |notes| == 1 {
      assert notes == [notes[0]];
    } else if |notes| == 2 {
      assert notes == [notes[0], notes[1]];
    }
  }

  /** Exactly when a transfer is built. */
  lemma TransferSucceedsIff(out: Outside, w: Wallet, cs: seq<SparseTree.Commitment>, notes: seq<Note>, amount: nat,
                            to: Point, toD: F, quote: nat, relayer: VaultSpec.Address, dummy: F, b0: F, b1: F)
    ensures TransferTo(out, w, cs, notes, amount, to, toD, quote, relayer, dummy, b0, b1).Success? <==>
            && 1 <= |notes| <= 2
            && (|notes| == 2 ==> notes[0].commitment != notes[1].commitment)
            && (forall n :: n in notes ==> |Matches(cs, CommitmentOf(out.pr, w, n))| == 1)
            && out.isKnownRoot(Root(out.pr.compress, LEVELS, SparseTree.Assigned(cs)))
            && amount + quote <= SumNotes(notes)
  {
    WithdrawSucceedsIff(out, w, cs, notes, amount, true, quote, relayer, dummy, b0, b1);
    hide LeafIndexOf, Root, SumNotes, ProofValuesOf;
  }

  /** Why the inputs of a spend are refused: each refusal names the first condition that fails, the first note
      before the second. */
  lemma SpendRefusedIff(out: Outside, w: Wallet, cs: seq<SparseTree.Commitment>, notes: seq<Note>, dummy: F)
    ensures var r := SpendInputsFor(out, w, cs, notes, dummy);
      var counted := 1 <= |notes| <= 2;
      var twice := |notes| == 2 && notes[0].commitment == notes[1].commitment;
      && (r == Failure(WrongNoteCount) <==> !counted)
      && (r == Failure(SameNoteTwice) <==> twice)
      && (counted && !twice ==>
            var first := |Matches(cs, CommitmentOf(out.pr, w, notes[0]))|;
            var second := if |notes| == 1 then 1 else |Matches(cs, CommitmentOf(out.pr, w, notes[1]))|;
            var known := out.isKnownRoot(Root(out.pr.compress, LEVELS, SparseTree.Assigned(cs)));
            && (r == Failure(NotFound) <==> first == 0 || (first == 1 && second == 0))
            && (r == Failure(Ambiguous) <==> first > 1 || (first == 1 && second > 1))
            && (r == Failure(UnknownRoot) <==> first == 1 == second && !known))
  {
    hide Root, RealInput, CommitmentOf, Matches;
  }

  /** A withdraw checks its inputs first, a transfer the amount. */
  lemma ExceedsNotesIff(out: Outside, w: Wallet, cs: seq<SparseTree.Commitment>, notes: seq<Note>, amount: nat,
                        relay: bool, to: Point, toD: F, quote: nat, relayer: VaultSpec.Address, dummy: F, b0: F, b1: F)
    ensures var r := Withdraw(out, w, cs, notes, amount, relay, quote, relayer, dummy, b0, b1);
      var inputs := SpendInputsFor(out, w, cs, notes, dummy);
      && (inputs.Failure? ==> r == Failure(inputs.error))
      && (inputs.Success? ==>
            (r == Failure(ExceedsNotes) <==> SumNotes(notes) < amount + if relay then quote else 0))
    ensures var r := TransferTo(out, w, cs, notes, amount, to, toD, quote, relayer, dummy, b0, b1);
      var inputs := SpendInputsFor(out, w, cs, notes, dummy);
      && (SumNotes(notes) < amount + quote ==> r == Failure(ExceedsNotes))
      && (amount + quote <= SumNotes(notes) && inputs.Failure? ==> r == Failure(inputs.error))
  {
    hide SpendInputsFor, SumNotes, ProofValuesOf;
  }

  /** What a plan hands to the note store: the commitments of the notes spent, and at most one new note, unspent and
      not yet located. */
  predicate HandsOver(p: Plan, notes: seq<Note>) {
    && p.spent == CommitmentsOf(notes)
    && |p.added| <= 1 && forall n :: n in p.added ==> n.amount > 0 && n.leafIndex == -1 && !n.spent
  }

  lemma PlansHandOver(out: Outside, w: Wallet, cs: seq<SparseTree.Commitment>, notes: seq<Note>, amount: nat,
                      relay: bool, to: Point, toD: F, quote: nat, relayer: VaultSpec.Address, dummy: F, b0: F, b1: F)
    ensures var r := Withdraw(out, w, cs, notes, amount, relay, quote, relayer, dummy, b0, b1);
      r.Success? ==> HandsOver(r.value, notes)
    ensures var r := TransferTo(out, w, cs, notes, amount, to, toD, quote, relayer, dummy, b0, b1);
      r.Success? ==> HandsOver(r.value, notes)
    ensures var p := Shield(out, w, b0, amount, dummy, b1, b0, b1);
      amount > 0 ==> HandsOver(p, [])
  {
    hide SpendInputsFor, SumNotes, ProofValuesOf;
  }
}
