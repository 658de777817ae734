/** The end-to-end results in the small world: after its deposit, the served table, a withdrawal and a payment
    of the deposited note meet every assumption, and so does a plan with two equal outputs. */
module WalletWitness {
  import opened Basics
  import opened PaddedTree
  import opened MerklePath
  import opened Field
  import opened Circuit
  import opened VaultSpec
  import opened VaultRuns
  import opened VaultEvents
  import opened WalletPlans
  import opened WalletCompleteness
  import opened WalletIndex
  import W = SolvencyWitness
  import C = NoteCipher
  import D = IndexerDb
  import S = IndexerSafety
  import H = IndexerHealing
  import SparseTree
  import WalletScan
  import WalletDelivery

  // ----- the run and its table

  const START := Initial(W.CONFIG, W.BALANCES)
  const STEPS := [W.DEPOSIT]
  const STAMPS := [Stamp(1, 1)]

  ghost function Now(): State { Final(W.World(), START, STEPS) }

  const ROWS: map<nat, D.Row> := map[0 := D.Row(1000, [], 1, 1), 1 := D.Row(1500, [], 1, 1)]
  const TABLE := D.Tables(ROWS, map[], 1, Some(1), false)

  const LIST := [SparseTree.Commitment(0, 1000), SparseTree.Commitment(1, 1500)]

  lemma NowIs()
    ensures W.Deposited(Now()) && AcceptedAt(W.World(), START, STEPS, 0)
  {
    hide After, Accepted;
    W.DepositAccepted();
    W.DepositLeaves();
    assert StateAt(W.World(), START, STEPS, 0) == START;
    assert StateAt(W.World(), START, STEPS, 1) == After(W.World(), START, W.DEPOSIT);
  }

  lemma TwoRows()
    ensures D.NextLeaf(ROWS) == 2
  {
    D.NextIsUnique(ROWS, 2, D.NextLeaf(ROWS));
  }

  lemma HistoryIs()
    ensures ChainOf(W.World(), START, STEPS, STAMPS, 1).leaves == [ROWS[0], ROWS[1]]
  {
    hide After, Accepted;
    NowIs();
    assert ChainOf(W.World(), START, STEPS, STAMPS, 0) == S.Chain([], map[]);
  }

  lemma TableUpToDate()
    ensures UpToDate(ChainOf(W.World(), START, STEPS, STAMPS, 1), TABLE, 1)
  {
    hide ChainOf;
    HistoryIs();
    TwoRows();
    var c := ChainOf(W.World(), START, STEPS, STAMPS, 1);
    assert S.Prefix(c, 2) == ROWS;
  }

  lemma ServedIs()
    ensures Served(TABLE) == LIST
  {
    TwoRows();
    assert ServedBelow(TABLE, 0) == [];
    assert ServedBelow(TABLE, 1) == [LIST[0]];
  }

  lemma TreeIs()
    ensures SparseTree.Assigned(LIST) == Indexed(W.LEAVES[..2]) && TreeOf(W.PR, LIST) == 2020
  {
    hide Root;
    assert LIST[..1] == [LIST[0]] && [LIST[0]][..0] == [];
    assert SparseTree.Assigned([LIST[0]]) == map[0 := 1000];
    assert SparseTree.Assigned(LIST) == Indexed(W.LEAVES[..2]);
    W.SpendRoot();
  }

  // ----- the wallet

  const WALLET := Wallet(0, 0, 16, 0, W.ORIGIN, W.USER)
  const NOTE := Note(1, 1000, 0, 1000, 0, false)

  function Nonce(): Bytes { seq(24, i => 0) }

  /** Encrypts with one ephemeral scalar and nonce. */
  function Encrypt(pkD: Point, d: F, amount: int, blinding: F): Bytes {
    if amount < 0 then [] else C.EncryptNote(W.PR, C.OnePointCipher(W.ORIGIN), 0, Nonce(), pkD,
                                             C.Contents(amount, d, blinding))
  }

  ghost function Surroundings(leaves: seq<F>): Outside {
    Outside(W.PR, (e: Ext) => 9, (pkD: Point, d: F, amount: int, blinding: F) => Encrypt(pkD, d, amount, blinding),
            (r: F) => IsKnown(W.World(), leaves, r))
  }

  lemma WalletIsOk()
    ensures WalletOk(W.PR, WALLET)
  {
  }

  lemma NoteIsSpendable()
    ensures Spendable(Surroundings(Now().leaves), WALLET, LIST, [NOTE], 1)
  {
    WalletIsOk();
    assert LIST[1..] == [LIST[1]] && [LIST[1]][1..] == [];
    assert CommitmentOf(W.PR, WALLET, NOTE) == 1000;
    assert Matches([LIST[1]], 1000) == [];
    assert Matches(LIST, 1000) == [LIST[0]];
    NoteSum();
  }

  // ----- the plans

  ghost function Spend(): seq<InNote> {
    [RealInput(W.PR, WALLET, SparseTree.Assigned(LIST), NOTE, 0), DummyInput(WALLET, 300_000)]
  }

  lemma SpendIs(leaves: seq<F>)
    requires IsKnown(W.World(), leaves, 2020)
    ensures SpendInputsFor(Surroundings(leaves), WALLET, LIST, [NOTE], 300_000) == Success(SpendInputs(Spend(), 2020))
  {
    hide Root, IsKnown;
    TreeIs();
    assert CommitmentOf(W.PR, WALLET, NOTE) == 1000;
    assert LIST[1..] == [LIST[1]] && [LIST[1]][1..] == [];
    assert Matches([LIST[1]], 1000) == [];
    assert Matches(LIST, 1000) == [LIST[0]];
  }

  /** Proof values of a plan that spends the note into two outputs. */
  lemma SpendValues(out: Outside, outputs: seq<OutNote>, ext: Ext)
    requires out.pr == W.PR && |outputs| == 2 && Payable(outputs)
    requires outputs[0].blinding == 3600 && outputs[1].blinding == 3700
    ensures ProofValuesOf(out, 2020, Spend(), outputs, ext)
         == ProofValues(2020, WalletPublicAmount(ext), out.hashExtData(ext), [W.X, 10_300_000], [3600, 3700])
  {
    W.NoteValues(1, 1000);
    W.NoteValues(0, 300_000);
  }

  ghost function Withdrawal(): Result<Plan> {
    Withdraw(Surroundings(Now().leaves), WALLET, LIST, [NOTE], 1, false, 0, W.USER, 300_000, 3600, 3700)
  }

  ghost function Payment(): Result<Plan> {
    TransferTo(Surroundings(Now().leaves), WALLET, LIST, [NOTE], 1, DiversifiedKey(W.PR, WALLET.ivk, 0), 0, 0, W.USER,
               300_000, 3600, 3700)
  }

  lemma NoteSum()
    ensures SumNotes([NOTE]) == 1
  {
    assert [NOTE][1..] == [];
  }

  lemma WithdrawalIs()
    ensures Withdrawal().Success?
    ensures var p := Withdrawal().value;
      && p.proof == ProofValues(2020, P - 1, 9, [W.X, 10_300_000], [3600, 3700])
      && p.ext.extAmount == -1 && p.ext.fee == 0 && p.ext.recipient == W.USER && InRange(p.ext)
  {
    hide IsKnown, SpendInputsFor, Spend, Encrypt, ProofValuesOf, DiversifiedKey, Now, SumNotes, CommitmentsOf;
    NowIs();
    W.RootsKnown();
    SpendIs(Now().leaves);
    NoteSum();
    var p := Withdrawal().value;
    SpendValues(Surroundings(Now().leaves), p.outputs, p.ext);
  }

  lemma PaymentIs()
    ensures Payment().Success?
    ensures var p := Payment().value;
      && p.proof == ProofValues(2020, 0, 9, [W.X, 10_300_000], [3600, 3700])
      && p.ext.extAmount == 0 && p.ext.fee == 0 && p.ext.recipient == W.USER && InRange(p.ext)
  {
    hide IsKnown, SpendInputsFor, Spend, Encrypt, ProofValuesOf, DiversifiedKey, Now, SumNotes, CommitmentsOf;
    NowIs();
    W.RootsKnown();
    SpendIs(Now().leaves);
    NoteSum();
    var p := Payment().value;
    SpendValues(Surroundings(Now().leaves), p.outputs, p.ext);
  }

  /** The payment that goes with such a plan is possible after the deposit. */
  lemma Paid(ext: ExtData)
    requires ext.fee == 0 && ext.recipient == W.USER && (ext.extAmount == -1 || ext.extAmount == 0)
    ensures Pay(W.World(), map[W.USER := 4, W.VAULT := 1], ext, W.USER).Some?
  {
  }

  /** A plan with these proof values is taken by the vault after the deposit. */
  lemma Taken(p: Plan)
    requires InRange(p.ext) && Consistent(Surroundings(Now().leaves), p) && p.ext.recipient == W.USER && p.ext.fee == 0
    requires p.proof.nullifiers == [W.X, 10_300_000] && p.proof.commitments == [3600, 3700]
    requires p.proof.root == 2020 && p.proof.extDataHash == 9
    requires (p.proof.publicAmount == P - 1 && p.ext.extAmount == -1)
             || (p.proof.publicAmount == 0 && p.ext.extAmount == 0)
    ensures Submittable(W.World(), Surroundings(Now().leaves), Now(), p, W.POINTS, W.USER)
  {
    hide Consistent, Satisfies, Pow2, Encrypt, WitnessFor, Pay, Now, IsKnown, StateAt;
    NowIs();
    W.Pow2Above(20);
    Paid(ExtOf(p.ext));
    assert Signals(PublicFor(p, 3)) == W.V3 || Signals(PublicFor(p, 3)) == W.V4;
  }

  lemma ConsistentPlan(out: Outside, p: Plan)
    requires Sendable(out, p)
    ensures Consistent(out, p)
  {
  }

  /** A withdrawal of the deposited note from the served table meets every assumption, and is accepted. */
  lemma ServedWithdrawIsPossible()
    ensures Ordered(STAMPS) && AcceptedAt(W.World(), START, STEPS, 0)
    ensures UpToDate(ChainOf(W.World(), START, STEPS, STAMPS, 1), TABLE, 1)
    ensures Sound(W.PR) && TreeOf(W.PR, Served(TABLE)) != 0
    ensures Spendable(Surroundings(Now().leaves), WALLET, Served(TABLE), [NOTE], 1)
    ensures Withdrawal().Success?
            && Submittable(W.World(), Surroundings(Now().leaves), Now(), Withdrawal().value, W.POINTS, W.USER)
    ensures var p := Withdrawal().value;
      Transact(W.World(), Now(), TxProofOf(p, W.POINTS), ExtOf(p.ext), W.USER, true).1 == Ok
  {
    hide UpToDate, Spendable, Submittable, Transact, Withdraw, Sound, TreeOf, IsKnown, Sendable, Consistent, ChainOf,
         AcceptedAt;
    NowIs();
    TableUpToDate();
    W.PrimitivesSound();
    ServedIs();
    TreeIs();
    NoteIsSpendable();
    WithdrawalIs();
    var out, p := Surroundings(Now().leaves), Withdrawal().value;
    assert out.pr == W.World().pr && forall r :: out.isKnownRoot(r) <==> IsKnown(W.World(), Now().leaves, r);
    ServedWithdrawAccepted(W.World(), W.CONFIG, W.BALANCES, STEPS, STAMPS, TABLE, 1, out, WALLET, [NOTE], 1, false, 0,
                           W.USER,
                           300_000, 3600, 3700, W.POINTS, W.USER);
    ConsistentPlan(out, p);
    Taken(p);
  }

  // ----- a payment

  ghost function Scanner(): WalletScan.ScanEnv {
    WalletScan.ScanEnv(W.PR, (blob: Bytes) => WalletDelivery.Read(C.DecryptNote(W.PR, C.OnePointCipher(W.ORIGIN),
          WALLET.ivk, blob)),
                       (n: F) => false)
  }

  lemma EverythingSealed(leaves: seq<F>)
    ensures WalletDelivery.AllSealed(Surroundings(leaves), C.OnePointCipher(W.ORIGIN))
  {
    hide C.EncryptNote, C.SoundCipher;
    var out, c := Surroundings(leaves), C.OnePointCipher(W.ORIGIN);
    C.SoundCipherIsPossible(W.PR, W.ORIGIN);
    forall pkD, d, amount: nat, blinding | WalletDelivery.Storable(amount, d, blinding)
      ensures WalletDelivery.Sealed(out, c, pkD, d, amount, blinding)
    {
      assert out.encrypt(pkD, d, amount, blinding)
          == C.EncryptNote(out.pr, c, 0, Nonce(), pkD, C.Contents(amount, d, blinding));
    }
  }

  lemma SmallIsStorable(amount: nat, blinding: F)
    requires amount < 256 && blinding < 65536
    ensures WalletDelivery.Storable(amount, 0, blinding)
  {
    assert C.Pow256(2) == 65536;
    AtLeast(32);
    AtLeast(11);
  }

  lemma {:induction false} AtLeast(n: nat)
    requires n >= 2
    ensures C.Pow256(n) >= 65536
  {
    if n > 2 {
      AtLeast(n - 1);
    }
  }

  lemma PaymentSendable()
    ensures Payment().Success? && Sendable(Surroundings(Now().leaves), Payment().value)
  {
    hide TransferTo, Sound, IsKnown, Sendable, DiversifiedKey, Encrypt, StateAt, Pow2, WalletOk;
    NowIs();
    W.PrimitivesSound();
    W.Pow2Above(20);
    WalletIsOk();
    PaymentIs();
    NoteSum();
    assert SparseTree.Genuine(LIST, Now().leaves);
    TransferSendable(Surroundings(Now().leaves), WALLET, LIST, Now().leaves, [NOTE], 1,
                     DiversifiedKey(W.PR, WALLET.ivk, 0),
                     0, 0, W.USER,
                     300_000, 3600, 3700);
  }

  lemma PaymentReadable()
    ensures WalletDelivery.AllSealed(Surroundings(Now().leaves), C.OnePointCipher(W.ORIGIN))
    ensures WalletDelivery.ReadsWith(Scanner(), C.OnePointCipher(W.ORIGIN), WALLET)
    ensures WalletDelivery.Storable(SumNotes([NOTE]), 0, 3600) && WalletDelivery.Storable(SumNotes([NOTE]), 0, 3700)
  {
    hide C.DecryptNote, C.EncryptNote, C.SoundCipher;
    WalletIsOk();
    EverythingSealed(Now().leaves);
    NoteSum();
    SmallIsStorable(1, 3600);
    SmallIsStorable(1, 3700);
  }

  /** A payment of the deposited note to the wallet itself meets every assumption: it is accepted, and its
      recipient finds it. */
  lemma PaymentIsPossible()
    ensures Sound(W.PR) && WalletDelivery.AllSealed(Surroundings(Now().leaves), C.OnePointCipher(W.ORIGIN))
    ensures WalletDelivery.ReadsWith(Scanner(), C.OnePointCipher(W.ORIGIN), WALLET)
    ensures WalletDelivery.Storable(SumNotes([NOTE]), 0, 3600) && WalletDelivery.Storable(SumNotes([NOTE]), 0, 3700)
    ensures var r := Payment();
      && r.Success? && Sendable(Surroundings(Now().leaves), r.value)
      && Submittable(W.World(), Surroundings(Now().leaves), Now(), r.value, W.POINTS, W.USER)
      && Transact(W.World(), Now(), TxProofOf(r.value, W.POINTS), ExtOf(r.value.ext), W.USER, true).1 == Ok
  {
    hide Submittable, Transact, Payment, Sound, IsKnown, Sendable, Consistent, WalletDelivery.AllSealed,
         WalletDelivery.ReadsWith,
         WalletDelivery.Storable, Canonical, Now, SumNotes;
    NowIs();
    W.PrimitivesSound();
    W.RootsKnown();
    PaymentReadable();
    PaymentIs();
    PaymentSendable();
    var out, p := Surroundings(Now().leaves), Payment().value;
    ConsistentPlan(out, p);
    Taken(p);
    SmallRoot();
    SubmittedUnderKnownRoot(W.World(), out, Now(), p, W.POINTS, W.USER);
  }

  lemma SmallRoot()
    ensures Canonical(2020)
  {
  }

  /** So the payment does arrive: the third leaf is found as the amount sent. */
  lemma PaymentFound()
    ensures Payment().Success?
    ensures WalletDelivery.FoundAs(Scanner(), WALLET, WalletScan.Row(2, 3600, Payment().value.ext.encryptedOutput0),
                                   AddedNote(1, 3600, 0, 3600))
  {
    hide Transact, TransferTo, Sound, IsKnown, WalletDelivery.AllSealed, WalletDelivery.ReadsWith,
         WalletDelivery.Storable, SumNotes,
         WalletDelivery.FoundAs, C.EncryptNote, C.DecryptNote, DiversifiedKey, StateAt, Sendable, Satisfies;
    NowIs();
    PaymentIs();
    PaymentIsPossible();
    WalletDelivery.PaymentArrives(W.World(), Now(), W.POINTS, W.USER, Surroundings(Now().leaves),
                                  C.OnePointCipher(W.ORIGIN),
                                  Scanner(), WALLET,
                                  Scanner(), WALLET, 0, LIST, [NOTE], 1, 0, W.USER, 300_000, 3600, 3700);
  }

  // ----- two equal outputs

  ghost function EmptyDeposit(): Plan {
    Shield(Surroundings([]), WALLET, 20, 0, 100_000, 200_000, 1000, 1000)
  }

  lemma EmptyDepositIs()
    ensures EmptyDeposit().proof == ProofValues(20, 0, 9, [10_100_000, 10_200_000], [1000, 1000])
  {
    hide Encrypt;
    W.NoteValues(0, 100_000);
    W.NoteValues(0, 200_000);
    W.NoteValues(0, 1000);
  }

  /** An empty deposit with two equal outputs meets every assumption of `RepeatAccepted` in a fresh vault. */
  lemma RepeatIsPossible()
    ensures var p := EmptyDeposit();
      && Sendable(Surroundings([]), p) && p.outputs[0] == p.outputs[1]
      && Submittable(W.World(), Surroundings([]), START, p, W.POINTS, W.USER) && Room(W.World(), START, p, W.USER)
  {
    hide Sound, Sendable, Satisfies, Pow2, WitnessFor, IsKnown, Encrypt, Consistent;
    W.PrimitivesSound();
    WalletIsOk();
    EqualOutputsSendable(Surroundings([]), WALLET, 20, 100_000, 200_000, 1000);
    EmptyDepositIs();
    var p := EmptyDeposit();
    ConsistentPlan(Surroundings([]), p);
    W.RootsKnown();
    W.Pow2Above(20);
    assert Signals(PublicFor(p, 3)) == W.V5;
  }
}
