/** What becomes of a plan's outputs: their owners find them by scanning, the sender's own change is the
    note the plan stored, and no value is lost between notes in, notes out, amount and fee. */
module WalletDelivery {
  import opened Basics
  import opened PaddedTree
  import opened Field
  import opened Circuit
  import opened WalletPlans
  import opened WalletCompleteness
  import opened WalletScan
  import opened VaultSpec
  import C = NoteCipher
  import VaultRuns
  import SparseTree

  /** The output is encrypted as the wallet encrypts, with some ephemeral scalar and nonce. */
  ghost predicate Sealed(out: Outside, c: C.Cipher, pkD: Point, d: F, amount: nat, blinding: F) {
    exists esk: nat, nonce: Bytes ::
      esk < L && |nonce| == 24
      && out.encrypt(pkD, d, amount, blinding)
            == C.EncryptNote(out.pr, c, esk, nonce, pkD, C.Contents(amount, d, blinding))
  }

  /** The values fit the fixed layout. */
  predicate Storable(amount: nat, d: F, blinding: F) {
    C.Encodable(C.Contents(amount, d, blinding))
  }

  ghost predicate AllSealed(out: Outside, c: C.Cipher) {
    && C.SoundCipher(out.pr, c)
    && forall pkD, d, amount: nat, blinding :: Storable(amount, d, blinding) ==>
          Sealed(out, c, pkD, d, amount, blinding)
  }

  function Read(o: Option<C.Contents>): Decrypted {
    match o
    case None => Nothing
    case Some(v) => Opened(v.amount, v.blinding, v.d)
  }

  /** The scan decrypts with the wallet's own viewing key. */
  ghost predicate ReadsWith(env: ScanEnv, c: C.Cipher, w: Wallet) {
    WalletOk(env.pr, w) && forall blob :: env.decrypt(blob) == Read(C.DecryptNote(env.pr, c, w.ivk, blob))
  }

  /** Two records of one note, found at different times. */
  predicate SameNote(a: Note, b: Note) {
    a.amount == b.amount && a.blinding == b.blinding && a.d == b.d && a.commitment == b.commitment
  }

  /** The row of an output is found by the wallet whose key it is locked to, as the note that was sent. */
  ghost predicate FoundAs(env: ScanEnv, w: Wallet, row: Row, n: Note) {
    Mine(env, w, row) && SameNote(FoundNote(env, w, row), n) && FoundNote(env, w, row).leafIndex == row.leafIndex
  }

  /** An output of nonzero amount locked to a wallet's key for a diversifier is found by that wallet. */
  lemma OutputFound(out: Outside, c: C.Cipher, env: ScanEnv, w: Wallet, d: F, amount: nat, blinding: F, i: nat)
    requires Sound(out.pr) && AllSealed(out, c) && env.pr == out.pr && ReadsWith(env, c, w)
    requires amount > 0 && Storable(amount, d, blinding)
    ensures var pkD := DiversifiedKey(out.pr, w.ivk, d);
      var commitment := NoteCommitment(out.pr, amount, pkD, blinding);
      FoundAs(env, w, Row(i, commitment, out.encrypt(pkD, d, amount, blinding)),
              AddedNote(amount, blinding, d, commitment))
  {
    hide Sound, C.SoundCipher, C.EncryptNote, C.DecryptNote, C.Encodable, DiversifiedKey, NoteCommitment;
    var pkD := DiversifiedKey(out.pr, w.ivk, d);
    assert Sealed(out, c, pkD, d, amount, blinding);
    var o := C.Contents(amount, d, blinding);
    var esk: nat, nonce: Bytes :| esk < L && |nonce| == 24
      && out.encrypt(pkD, d, amount, blinding) == C.EncryptNote(out.pr, c, esk, nonce, pkD, o);
    C.DecryptsOwn(out.pr, c, esk, nonce, w.ivk, o);
    C.BlobSize(out.pr, c, esk, nonce, pkD, o);
    assert env.decrypt(out.encrypt(pkD, d, amount, blinding)) == Opened(amount, blinding, d);
  }

  /** A deposit is found again from the seed alone, as the note the plan stored. */
  lemma ShieldFound(out: Outside, c: C.Cipher, env: ScanEnv, w: Wallet, root: F, amount: nat, dummy0: F, dummy1: F,
                    b0: F, b1: F, i: nat)
    requires Sound(out.pr) && AllSealed(out, c) && env.pr == out.pr && ReadsWith(env, c, w)
    requires amount > 0 && Storable(amount, w.d, b0)
    ensures var p := Shield(out, w, root, amount, dummy0, dummy1, b0, b1);
      && |p.added| == 1 && p.added[0].amount == amount
      && FoundAs(env, w, Row(i, p.proof.commitments[0], p.ext.encryptedOutput0), p.added[0])
  {
    hide Sound, AllSealed, FoundAs, Storable;
    OutputFound(out, c, env, w, w.d, amount, b0, i);
  }

  /** A withdraw loses nothing: amount, fee and change make up the notes, and the change is found again. */
  lemma WithdrawFound(out: Outside, c: C.Cipher, env: ScanEnv, w: Wallet, cs: seq<SparseTree.Commitment>,
                      notes: seq<Note>, amount: int,
                      relay: bool, quote: nat, relayer: Address, dummy: F, b0: F, b1: F, i: nat)
    requires Sound(out.pr) && AllSealed(out, c) && env.pr == out.pr && ReadsWith(env, c, w)
    requires Withdraw(out, w, cs, notes, amount, relay, quote, relayer, dummy, b0, b1).Success?
    requires amount >= 0 && Storable(SumNotes(notes), w.d, b0)
    ensures var p := Withdraw(out, w, cs, notes, amount, relay, quote, relayer, dummy, b0, b1).value;
      && SumNotes(p.added) + amount + p.ext.fee == SumNotes(notes)
      && (forall n :: n in p.added ==> FoundAs(env, w, Row(i, p.proof.commitments[0], p.ext.encryptedOutput0), n))
  {
    hide Sound, AllSealed, FoundAs, SpendInputsFor, C.Pow256;
    var p := Withdraw(out, w, cs, notes, amount, relay, quote, relayer, dummy, b0, b1).value;
    var change := SumNotes(notes) - amount - p.ext.fee;
    if change > 0 {
      OutputFound(out, c, env, w, w.d, change, b0, i);
      SumOne(p.added);
    }
  }

  lemma SumOne(notes: seq<Note>)
    requires |notes| == 1
    ensures SumNotes(notes) == notes[0].amount
  {
    assert notes[1..] == [];
  }

  /** A transfer loses nothing, the recipient finds exactly the amount sent, and the sender finds the
      change the plan stored. */
  lemma TransferFound(out: Outside, c: C.Cipher, env: ScanEnv, w: Wallet, envTo: ScanEnv, to: Wallet, toD: F,
                      cs: seq<SparseTree.Commitment>, notes: seq<Note>, amount: nat, quote: nat, relayer: Address,
                      dummy: F, b0: F, b1: F, i: nat, j: nat)
    requires Sound(out.pr) && AllSealed(out, c)
    requires env.pr == out.pr == envTo.pr && ReadsWith(env, c, w) && ReadsWith(envTo, c, to)
    requires amount > 0 && Storable(SumNotes(notes), toD, b0) && Storable(SumNotes(notes), w.d, b1)
    requires TransferTo(out, w, cs, notes, amount, DiversifiedKey(out.pr, to.ivk, toD), toD, quote, relayer, dummy,
                        b0, b1).Success?
    ensures var p := TransferTo(out, w, cs, notes, amount, DiversifiedKey(out.pr, to.ivk, toD), toD, quote, relayer,
                                dummy, b0, b1).value;
      && SumNotes(p.added) + amount + p.ext.fee == SumNotes(notes)
      && FoundAs(envTo, to, Row(i, p.proof.commitments[0], p.ext.encryptedOutput0),
                 AddedNote(amount, b0, toD, p.proof.commitments[0]))
      && (forall n :: n in p.added ==> FoundAs(env, w, Row(j, p.proof.commitments[1], p.ext.encryptedOutput1), n))
  {
    hide Sound, AllSealed, FoundAs, SpendInputsFor, C.Pow256;
    var key := DiversifiedKey(out.pr, to.ivk, toD);
    var p := TransferTo(out, w, cs, notes, amount, key, toD, quote, relayer, dummy, b0, b1).value;
    var change := SumNotes(notes) - amount - quote;
    OutputFound(out, c, envTo, to, toD, amount, b0, i);
    if change > 0 {
      OutputFound(out, c, env, w, w.d, change, b1, j);
      SumOne(p.added);
    }
  }

  /** Both outputs of a plan look alike from outside: their blobs have the same size. */
  lemma BlobsAlike(out: Outside, c: C.Cipher, pkD0: Point, d0: F, amount0: nat, b0: F, pkD1: Point, d1: F,
                   amount1: nat, b1: F)
    requires AllSealed(out, c) && Storable(amount0, d0, b0) && Storable(amount1, d1, b1)
    ensures |out.encrypt(pkD0, d0, amount0, b0)| == 147 == |out.encrypt(pkD1, d1, amount1, b1)|
  {
    hide C.EncryptNote;
    SealedSize(out, c, pkD0, d0, amount0, b0);
    SealedSize(out, c, pkD1, d1, amount1, b1);
  }

  lemma SealedSize(out: Outside, c: C.Cipher, pkD: Point, d: F, amount: nat, blinding: F)
    requires AllSealed(out, c) && Storable(amount, d, blinding)
    ensures |out.encrypt(pkD, d, amount, blinding)| == 147
  {
    assert Sealed(out, c, pkD, d, amount, blinding);
    var esk: nat, nonce: Bytes :| esk < L && |nonce| == 24
      && out.encrypt(pkD, d, amount, blinding)
            == C.EncryptNote(out.pr, c, esk, nonce, pkD, C.Contents(amount, d, blinding));
    C.BlobSize(out.pr, c, esk, nonce, pkD, C.Contents(amount, d, blinding));
  }

  /** Whatever a plan does, the two blobs it publishes have the same size. */
  lemma PlanBlobsAlike(out: Outside, c: C.Cipher, w: Wallet, cs: seq<SparseTree.Commitment>, notes: seq<Note>,
                       amount: nat,
                       relay: bool, to: Point, toD: F, quote: nat, relayer: Address, root: F, dummy: F, b0: F, b1: F)
    requires AllSealed(out, c)
    requires Storable(SumNotes(notes), w.d, b0) && Storable(SumNotes(notes), w.d, b1)
    requires Storable(amount, w.d, b0) && Storable(amount, toD, b0)
    ensures var r := Withdraw(out, w, cs, notes, amount, relay, quote, relayer, dummy, b0, b1);
      r.Success? ==> |r.value.ext.encryptedOutput0| == 147 == |r.value.ext.encryptedOutput1|
    ensures var r := TransferTo(out, w, cs, notes, amount, to, toD, quote, relayer, dummy, b0, b1);
      r.Success? ==> |r.value.ext.encryptedOutput0| == 147 == |r.value.ext.encryptedOutput1|
    ensures var p := Shield(out, w, root, amount, dummy, b1, b0, b1);
      |p.ext.encryptedOutput0| == 147 == |p.ext.encryptedOutput1|
  {
    hide AllSealed, C.Pow256, SpendInputsFor, ProofValuesOf, SumNotes;
    var fee, sum := if relay then quote else 0, SumNotes(notes);
    if sum >= amount + fee {
      SealedSize(out, c, w.pkD, w.d, sum - amount - fee, b0);
    }
    SealedSize(out, c, w.pkD, w.d, 0, b1);
    SealedSize(out, c, to, toD, amount, b0);
    SealedSize(out, c, w.pkD, w.d, amount, b0);
    if sum >= amount + quote {
      SealedSize(out, c, w.pkD, w.d, sum - amount - quote, b1);
    }
  }

  // ----- end to end

  /** The rows of an accepted call's two outputs, as its events announce them. */
  function RowsOf(n: nat, proof: TxProof, ext: ExtData): (Row, Row)
    requires 2 <= |proof.outputCommitments|
  {
    (Row(n, proof.outputCommitments[0], ext.encryptedOutput0),
     Row(n + 1, proof.outputCommitments[1], ext.encryptedOutput1))
  }

  predicate Announces(s: State, row: Row) {
    NewCommitment(row.leafIndex, row.commitment, row.encryptedOutput) in s.events
  }

  lemma AcceptedRows(host: Host, s: State, proof: TxProof, ext: ExtData, sender: Address)
    requires Transact(host, s, proof, ext, sender, true).1.Ok?
    ensures 2 <= |proof.outputCommitments|
    ensures var s', rows := Transact(host, s, proof, ext, sender, true).0, RowsOf(|s.leaves|, proof, ext);
      GenuineRow(s'.leaves, rows.0) && GenuineRow(s'.leaves, rows.1) && Announces(s', rows.0) && Announces(s', rows.1)
  {
    hide Transact;
    var step := VaultRuns.Call(proof, ext, sender, true);
    assert VaultRuns.Accepted(host, s, step);
    VaultRuns.AcceptedEffect(host, s, step);
    var c := Commit(s, proof, ext);
    assert c.events[|c.events| - 2] in c.events && c.events[|c.events| - 1] in c.events;
  }

  /** A payment arrives: once the vault has accepted a transfer, its events announce a genuine leaf that
      the recipient's scan recognises as the amount sent, and the sender's scan recognises the change. */
  lemma PaymentArrives(host: Host, s: State, points: Groth16Proof, sender: Address,
                       out: Outside, c: C.Cipher, env: ScanEnv, w: Wallet, envTo: ScanEnv, to: Wallet, toD: F,
                       cs: seq<SparseTree.Commitment>, notes: seq<Note>, amount: nat, quote: nat, relayer: Address,
                       dummy: F, b0: F, b1: F)
    requires Sound(out.pr) && AllSealed(out, c)
    requires env.pr == out.pr == envTo.pr && ReadsWith(env, c, w) && ReadsWith(envTo, c, to)
    requires amount > 0 && Storable(SumNotes(notes), toD, b0) && Storable(SumNotes(notes), w.d, b1)
    requires var r := TransferTo(out, w, cs, notes, amount, DiversifiedKey(out.pr, to.ivk, toD), toD, quote, relayer,
                                 dummy, b0, b1);
      && r.Success? && InRange(r.value.ext) && r.value.proof.publicAmount >= 0
      && Transact(host, s, TxProofOf(r.value, points), ExtOf(r.value.ext), sender, true).1.Ok?
    ensures var p := TransferTo(out, w, cs, notes, amount, DiversifiedKey(out.pr, to.ivk, toD), toD, quote, relayer,
                                dummy, b0, b1).value;
      var s' := Transact(host, s, TxProofOf(p, points), ExtOf(p.ext), sender, true).0;
      var rows := RowsOf(|s.leaves|, TxProofOf(p, points), ExtOf(p.ext));
      && GenuineRow(s'.leaves, rows.0) && Announces(s', rows.0)
      && FoundAs(envTo, to, rows.0, AddedNote(amount, b0, toD, rows.0.commitment))
      && GenuineRow(s'.leaves, rows.1) && Announces(s', rows.1)
      && (forall n :: n in p.added ==> FoundAs(env, w, rows.1, n))
  {
    hide Sound, AllSealed, FoundAs, ReadsWith, Storable, Transact, GenuineRow, Announces, SpendInputsFor;
    var n := |s.leaves|;
    TransferFound(out, c, env, w, envTo, to, toD, cs, notes, amount, quote, relayer, dummy, b0, b1, n, n + 1);
    var p := TransferTo(out, w, cs, notes, amount, DiversifiedKey(out.pr, to.ivk, toD), toD, quote, relayer, dummy,
                        b0, b1).value;
    AcceptedRows(host, s, TxProofOf(p, points), ExtOf(p.ext), sender);
  }

  // ----- who pays and who is paid

  /** Once the vault accepts a withdraw plan, the wallet's own account has risen by the amount and the relayer's by
      the quoted fee, the vault's has fallen by both, and no other account has changed; a negative amount is a
      deposit by the sender. Only a relayed plan is left for the relayer to submit. */
  lemma WithdrawPays(host: Host, s: State, points: Groth16Proof, sender: Address,
                     out: Outside, w: Wallet, cs: seq<SparseTree.Commitment>, notes: seq<Note>, amount: int,
                     relay: bool, quote: nat, relayer: Address, dummy: F, b0: F, b1: F, a: Address)
    requires var r := Withdraw(out, w, cs, notes, amount, relay, quote, relayer, dummy, b0, b1);
      && r.Success? && InRange(r.value.ext) && r.value.proof.publicAmount >= 0
      && Transact(host, s, TxProofOf(r.value, points), ExtOf(r.value.ext), sender, true).1.Ok?
    ensures var p := Withdraw(out, w, cs, notes, amount, relay, quote, relayer, dummy, b0, b1).value;
      var s' := Transact(host, s, TxProofOf(p, points), ExtOf(p.ext), sender, true).0;
      var fee := if relay then quote else 0;
      && (p.selfSign <==> !relay)
      && BalanceOf(s'.balances, a) - BalanceOf(s.balances, a)
         == (if a == w.address && amount > 0 then amount else 0)
          + (if relay && a == relayer then quote else 0)
          - (if a == sender && amount < 0 then -amount else 0)
          - (if a == host.self then amount + fee else 0)
  {
    hide Transact, SpendInputsFor, ProofValuesOf, BalanceOf;
    var p := Withdraw(out, w, cs, notes, amount, relay, quote, relayer, dummy, b0, b1).value;
    AcceptedMoves(host, s, TxProofOf(p, points), ExtOf(p.ext), sender, true, a);
  }

  /** A transfer moves no tokens but the fee, from the vault to the relayer. */
  lemma TransferPays(host: Host, s: State, points: Groth16Proof, sender: Address,
                     out: Outside, w: Wallet, cs: seq<SparseTree.Commitment>, notes: seq<Note>, amount: nat, to: Point,
                     toD: F, quote: nat, relayer: Address, dummy: F, b0: F, b1: F, a: Address)
    requires var r := TransferTo(out, w, cs, notes, amount, to, toD, quote, relayer, dummy, b0, b1);
      && r.Success? && InRange(r.value.ext) && r.value.proof.publicAmount >= 0
      && Transact(host, s, TxProofOf(r.value, points), ExtOf(r.value.ext), sender, true).1.Ok?
    ensures var p := TransferTo(out, w, cs, notes, amount, to, toD, quote, relayer, dummy, b0, b1).value;
      var s' := Transact(host, s, TxProofOf(p, points), ExtOf(p.ext), sender, true).0;
      && !p.selfSign
      && BalanceOf(s'.balances, a) - BalanceOf(s.balances, a)
         == (if a == relayer then quote else 0) - (if a == host.self then quote else 0)
  {
    hide Transact, SpendInputsFor, ProofValuesOf, BalanceOf;
    var p := TransferTo(out, w, cs, notes, amount, to, toD, quote, relayer, dummy, b0, b1).value;
    AcceptedMoves(host, s, TxProofOf(p, points), ExtOf(p.ext), sender, true, a);
  }

  /** A deposit moves its amount from the sender to the vault and costs no fee; the wallet signs it itself. */
  lemma ShieldPays(host: Host, s: State, points: Groth16Proof, sender: Address,
                   out: Outside, w: Wallet, root: F, amount: nat, dummy0: F, dummy1: F, b0: F, b1: F, a: Address)
    requires var p := Shield(out, w, root, amount, dummy0, dummy1, b0, b1);
      && InRange(p.ext) && p.proof.publicAmount >= 0
      && Transact(host, s, TxProofOf(p, points), ExtOf(p.ext), sender, true).1.Ok?
    ensures var p := Shield(out, w, root, amount, dummy0, dummy1, b0, b1);
      var s' := Transact(host, s, TxProofOf(p, points), ExtOf(p.ext), sender, true).0;
      && p.selfSign
      && BalanceOf(s'.balances, a) - BalanceOf(s.balances, a)
         == (if a == host.self then amount else 0) - (if a == sender then amount else 0)
  {
    hide Transact, ProofValuesOf, BalanceOf;
    var p := Shield(out, w, root, amount, dummy0, dummy1, b0, b1);
    AcceptedMoves(host, s, TxProofOf(p, points), ExtOf(p.ext), sender, true, a);
  }
}
