/** Discovery of incoming notes, and its agreement with spending: the nullifier looked up while
    scanning is the one published when the found note is spent. */
module WalletScan {
  import opened Basics
  import opened PaddedTree
  import opened Circuit
  import opened WalletPlans
  import opened WalletCompleteness
  import Field
  import SparseTree
  import VaultSpec

  datatype Row = Row(leafIndex: nat, commitment: F, encryptedOutput: Bytes)

  datatype Decrypted = Nothing | Opened(amount: nat, blinding: F, d: F)

  /** Trial decryption with the wallet's viewing key, and the spent status the indexer reports. */
  datatype ScanEnv = ScanEnv(pr: Primitives, decrypt: Bytes -> Decrypted, isSpent: F -> bool)

  /** The row is a nonzero note locked to this wallet. */
  predicate Mine(env: ScanEnv, w: Wallet, row: Row) {
    && row.encryptedOutput != []
    && var dec := env.decrypt(row.encryptedOutput);
    && dec.Opened? && dec.amount != 0
    && NoteCommitment(env.pr, dec.amount, DiversifiedKey(env.pr, w.ivk, dec.d), dec.blinding) == row.commitment
  }

  /** The nullifier the scan asks the indexer about. */
  function ScannedNullifier(env: ScanEnv, w: Wallet, row: Row): F
    requires Mine(env, w, row)
  {
    var dec := env.decrypt(row.encryptedOutput);
    NoteNullifier(env.pr, dec.amount, DiversifiedKey(env.pr, w.ivk, dec.d), w.nsk, dec.blinding, row.leafIndex)
  }

  function FoundNote(env: ScanEnv, w: Wallet, row: Row): Note
    requires Mine(env, w, row)
  {
    var dec := env.decrypt(row.encryptedOutput);
    Note(dec.amount, dec.blinding, dec.d, row.commitment, row.leafIndex, env.isSpent(ScannedNullifier(env, w, row)))
  }

  /** The note a row gives this wallet: what decrypts from it, not empty, under the commitment of that opening for
      the wallet's key, at the row's leaf, and spent if and only if the nullifier of that leaf is. */
  ghost predicate ReadFrom(env: ScanEnv, w: Wallet, row: Row, n: Note) {
    var pkD := DiversifiedKey(env.pr, w.ivk, n.d);
    && row.encryptedOutput != [] && env.decrypt(row.encryptedOutput) == Opened(n.amount, n.blinding, n.d)
    && n.amount != 0
    && n.commitment == row.commitment == NoteCommitment(env.pr, n.amount, pkD, n.blinding)
    && n.leafIndex == row.leafIndex
    && (n.spent <==> env.isSpent(NoteNullifier(env.pr, n.amount, pkD, w.nsk, n.blinding, row.leafIndex)))
  }

  /** The note is read from row `i`, and no earlier row has one with its commitment. */
  ghost predicate FirstRead(env: ScanEnv, w: Wallet, rows: seq<Row>, i: nat, n: Note) {
    && i < |rows| && ReadFrom(env, w, rows[i], n)
    && forall j, m :: 0 <= j < i && ReadFrom(env, w, rows[j], m) ==> m.commitment != n.commitment
  }

  ghost predicate Covered(notes: seq<Note>, known: set<F>, c: F) {
    c in known || exists n :: n in notes && n.commitment == c
  }

  /** One more note covers its own commitment. */
  lemma CoveredBy(notes: seq<Note>, known: set<F>, n: Note)
    ensures forall c :: Covered(notes + [n], known, c) <==> Covered(notes, known, c) || c == n.commitment
    ensures forall x :: x in notes ==> Covered(notes, known, x.commitment)
  {
    forall c ensures Covered(notes + [n], known, c) <==> Covered(notes, known, c) || c == n.commitment {
      if c == n.commitment {
        assert n in notes + [n];
      } else if Covered(notes, known, c) && c !in known {
        var x :| x in notes && x.commitment == c;
        assert x in notes + [n];
      }
    }
  }

  lemma MineReads(env: ScanEnv, w: Wallet, row: Row)
    ensures Mine(env, w, row) ==> ReadFrom(env, w, row, FoundNote(env, w, row))
    ensures forall n :: ReadFrom(env, w, row, n) ==> Mine(env, w, row) && n.commitment == row.commitment
  {
    hide DiversifiedKey, NoteCommitment;
  }

  /** Returns one note per own commitment that was not known, read from the first row that has it, in the order of
      the rows: nothing foreign, nothing twice, nothing missed. */
  method BuildScan(env: ScanEnv, w: Wallet, rows: seq<Row>, knownCommitments: set<F>)
    returns (notes: seq<Note>, ghost at: seq<nat>)
    ensures |at| == |notes| && (forall a, b :: 0 <= a < b < |at| ==> at[a] < at[b])
    ensures forall k :: 0 <= k < |notes| ==>
              FirstRead(env, w, rows, at[k], notes[k]) && notes[k].commitment !in knownCommitments
    ensures Distinct(notes)
    ensures forall row, n :: row in rows && ReadFrom(env, w, row, n) ==> Covered(notes, knownCommitments, n.commitment)
  {
    hide ReadFrom, Mine;
    var known := knownCommitments;
    notes, at := [], [];
    for k := 0 to |rows|
      invariant |at| == |notes|
      invariant forall a :: 0 <= a < |at| ==> at[a] < k
      invariant forall a, b :: 0 <= a < b < |at| ==> at[a] < at[b]
      invariant forall a :: 0 <= a < |notes| ==>
        FirstRead(env, w, rows, at[a], notes[a]) && notes[a].commitment !in knownCommitments
      invariant Distinct(notes)
      invariant forall c :: c in known <==> Covered(notes, knownCommitments, c)
      invariant forall j, n :: 0 <= j < k && ReadFrom(env, w, rows[j], n) ==> n.commitment in known
    {
      var row := rows[k];
      MineReads(env, w, row);
      if !Mine(env, w, row) || row.commitment in known {
        continue;
      }
      var n := FoundNote(env, w, row);
      assert FirstRead(env, w, rows, k, n);
      CoveredBy(notes, knownCommitments, n);
      forall a | 0 <= a < |notes| ensures notes[a].commitment != n.commitment {
        assert notes[a] in notes;
      }
      notes, at := notes + [n], at + [k];
      known := known + {row.commitment};
    }
  }

  /** Rows are the indexer's view of the leaves. */
  ghost predicate GenuineRow(leaves: seq<F>, row: Row) {
    row.leafIndex < |leaves| && leaves[row.leafIndex] == row.commitment
  }

  /** Scan and spend agree: for a found note whose commitment occurs once among the leaves, the input the
      wallet later builds publishes the nullifier the scan checked. A commitment that occurs twice is
      refused instead, so the wrong position is never spent. */
  lemma ScanAndSpendAgree(env: ScanEnv, w: Wallet, row: Row, cs: seq<SparseTree.Commitment>, leaves: seq<F>)
    requires Sound(env.pr) && WalletOk(env.pr, w) && Mine(env, w, row) && GenuineRow(leaves, row)
    requires SparseTree.Genuine(cs, leaves) && |leaves| <= Pow2(LEVELS)
    requires FoundNote(env, w, row).amount < Field.AMOUNT_BOUND
    ensures var n := FoundNote(env, w, row);
      var i := LeafIndexOf(env.pr, w, cs, n);
      && CommitmentOf(env.pr, w, n) == row.commitment
      && (i.Success? && (forall j :: 0 <= j < |leaves| && leaves[j] == row.commitment ==> j == row.leafIndex) ==>
            && i.value == row.leafIndex
            && InputNullifier(env.pr, RealInput(env.pr, w, SparseTree.Assigned(cs), n, i.value))
                  == ScannedNullifier(env, w, row))
      && (|Matches(cs, row.commitment)| > 1 ==> i == Failure(Ambiguous))
  {
    var n := FoundNote(env, w, row);
    var i := LeafIndexOf(env.pr, w, cs, n);
    if i.Success? {
      MatchesGenuine(cs, row.commitment);
      var hit := Matches(cs, row.commitment)[0];
      assert hit in Matches(cs, row.commitment);
      assert leaves[hit.leafIndex] == row.commitment;
    }
  }

  /** What a scan says about a note is what the vault will say about its spend: as long as the indexer reports the
      vault's nullifiers, a found note whose commitment occurs once is unspent if and only if the nullifier its
      spend publishes is not in the vault's spent set. */
  lemma SpentFlagIsVaults(env: ScanEnv, w: Wallet, row: Row, n: Note, cs: seq<SparseTree.Commitment>, leaves: seq<F>,
                          spent: set<F>)
    requires Sound(env.pr) && WalletOk(env.pr, w) && ReadFrom(env, w, row, n) && GenuineRow(leaves, row)
    requires SparseTree.Genuine(cs, leaves) && |leaves| <= Pow2(LEVELS) && n.amount < Field.AMOUNT_BOUND
    requires forall x :: env.isSpent(x) <==> x in spent
    requires forall j :: 0 <= j < |leaves| && leaves[j] == row.commitment ==> j == row.leafIndex
    ensures var i := LeafIndexOf(env.pr, w, cs, n);
      i.Success? ==>
        (n.spent <==> InputNullifier(env.pr, RealInput(env.pr, w, SparseTree.Assigned(cs), n, i.value)) in spent)
  {
    MineReads(env, w, row);
    hide DiversifiedKey, NoteCommitment, SparseTree.Assigned, LeafIndexOf, InputNullifier, Sound, Pow2;
    ScanAndSpendAgree(env, w, row, cs, leaves);
    assert n == FoundNote(env, w, row);
  }
}
