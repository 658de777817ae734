/** From the vault to the indexer: the history a run of the vault leaves on the ledger, which is what the
    indexer's results assume of a chain, and how the vault can emit the one history the indexer cannot store. */
module VaultEvents {
  import opened Basics
  import opened PaddedTree
  import opened Field
  import opened Circuit
  import opened VaultSpec
  import opened VaultRuns
  import opened WalletPlans
  import opened WalletCompleteness
  import I = IndexerDb
  import S = IndexerSafety

  /** Ledger and transaction of a step. */
  datatype Stamp = Stamp(ledger: nat, txHash: nat)

  function Extended(c: S.Chain, proof: TxProof, ext: ExtData, at: Stamp): S.Chain
    requires 2 <= |proof.outputCommitments|
  {
    S.Chain(c.leaves + [I.Row(proof.outputCommitments[0], ext.encryptedOutput0, at.ledger, at.txHash),
                        I.Row(proof.outputCommitments[1], ext.encryptedOutput1, at.ledger, at.txHash)],
            map v | v in c.nulls.Keys + (set x | x in proof.inputNullifiers) ::
              if v in c.nulls then c.nulls[v] else I.NullRow(at.ledger, at.txHash))
  }

  /** The history of the first `k` steps. */
  ghost function ChainOf(host: Host, s: State, steps: seq<Step>, stamps: seq<Stamp>, k: nat): S.Chain
    requires k <= |steps| == |stamps|
  {
    if k == 0 then S.Chain([], map[])
    else
      var c := ChainOf(host, s, steps, stamps, k - 1);
      if AcceptedAt(host, s, steps, k - 1) && 2 <= |steps[k - 1].proof.outputCommitments|
      then Extended(c, steps[k - 1].proof, steps[k - 1].ext, stamps[k - 1]) else c
  }

  /** The history is the vault's: one row per leaf and per spent nullifier. */
  ghost predicate Records(c: S.Chain, s: State) {
    && |c.leaves| == |s.leaves| && (forall i :: 0 <= i < |s.leaves| ==> c.leaves[i].value == s.leaves[i])
    && c.nulls.Keys == s.spent
  }

  /** Every event the vault published is genuine in the history, and every genuine event was published. */
  ghost predicate Published(c: S.Chain, s: State) {
    && (forall i: nat, v, enc :: NewCommitment(i, v, enc) in s.events <==>
          i < |c.leaves| && c.leaves[i].value == v && c.leaves[i].enc == enc)
    && (forall v :: NewNullifier(v) in s.events <==> v in c.nulls)
  }

  predicate UpTo(c: S.Chain, ledger: nat) {
    forall i :: 0 <= i < |c.leaves| ==> c.leaves[i].ledger <= ledger
  }

  ghost predicate Ordered(stamps: seq<Stamp>) {
    forall i, j :: 0 <= i <= j < |stamps| ==> stamps[i].ledger <= stamps[j].ledger
  }

  lemma ExtendedValid(c: S.Chain, proof: TxProof, ext: ExtData, at: Stamp)
    requires S.ValidChain(c) && UpTo(c, at.ledger) && 2 <= |proof.outputCommitments|
    ensures S.ValidChain(Extended(c, proof, ext, at)) && UpTo(Extended(c, proof, ext, at), at.ledger)
  {
    var d := Extended(c, proof, ext, at);
    var n := |c.leaves|;
    forall v | v in d.nulls ensures exists i :: 0 <= i < |d.leaves| && S.SameTx(d.leaves[i], d.nulls[v]) {
      if v in c.nulls {
        var i :| 0 <= i < n && S.SameTx(c.leaves[i], c.nulls[v]);
        assert d.leaves[i] == c.leaves[i];
      } else {
        assert S.SameTx(d.leaves[n], d.nulls[v]);
      }
    }
  }

  lemma CommitEvents(s: State, proof: TxProof, ext: ExtData)
    requires InI128(s.tvl + Signed(ext)) && 2 <= |proof.outputCommitments|
    ensures forall v :: NewNullifier(v) in Commit(s, proof, ext).events <==>
              || NewNullifier(v) in s.events
              || v in proof.inputNullifiers
    ensures forall i: nat, v, enc :: NewCommitment(i, v, enc) in Commit(s, proof, ext).events <==>
              || NewCommitment(i, v, enc) in s.events
              || (i == |s.leaves| && v == proof.outputCommitments[0] && enc == ext.encryptedOutput0)
              || (i == |s.leaves| + 1 && v == proof.outputCommitments[1] && enc == ext.encryptedOutput1)
  {
    var nulls := NullifierEvents(proof.inputNullifiers);
    forall v ensures NewNullifier(v) in nulls <==> v in proof.inputNullifiers {
      if v in proof.inputNullifiers {
        var k :| 0 <= k < |proof.inputNullifiers| && proof.inputNullifiers[k] == v;
        assert nulls[k] == NewNullifier(v);
      }
    }
    assert forall e :: e in nulls ==> e.NewNullifier?;
  }

  lemma CommitRecords(c: S.Chain, s: State, proof: TxProof, ext: ExtData, at: Stamp)
    requires InI128(s.tvl + Signed(ext)) && 2 <= |proof.outputCommitments|
    requires Records(c, s) && Published(c, s)
    ensures Records(Extended(c, proof, ext, at), Commit(s, proof, ext))
    ensures Published(Extended(c, proof, ext, at), Commit(s, proof, ext))
  {
    RecordsGrow(c, s, proof, ext, at);
    CommitEvents(s, proof, ext);
    var d, n := Extended(c, proof, ext, at), |s.leaves|;
    assert forall i :: 0 <= i < n ==> d.leaves[i] == c.leaves[i];
    hide Commit;
    assert d.nulls.Keys == c.nulls.Keys + (set x | x in proof.inputNullifiers);
  }

  lemma RecordsGrow(c: S.Chain, s: State, proof: TxProof, ext: ExtData, at: Stamp)
    requires InI128(s.tvl + Signed(ext)) && 2 <= |proof.outputCommitments| && Records(c, s)
    ensures Records(Extended(c, proof, ext, at), Commit(s, proof, ext))
  {
    hide NullifierEvents;
    assert forall i :: 0 <= i < |c.leaves| ==> Extended(c, proof, ext, at).leaves[i] == c.leaves[i];
  }

  lemma OtherStepsPublishNothing(host: Host, s: State, step: Step)
    requires !Accepted(host, s, step)
    ensures var s' := After(host, s, step);
      s'.leaves == s.leaves && s'.spent == s.spent && s'.events == s.events
  {
    if step.Call? {
      RejectedKeeps(host, s, step);
    }
  }

  /** The bridge: from a fresh vault, any run whose steps come in ledger order leaves a valid chain, whose
      rows are the vault's leaves and nullifiers and whose genuine events are those it published. */
  lemma {:induction false} RunGivesChain(host: Host, config: Config, balances: Balances, steps: seq<Step>,
                                         stamps: seq<Stamp>, k: nat)
    requires k <= |steps| == |stamps| && Ordered(stamps)
    ensures var s, c := StateAt(host, Initial(config, balances), steps, k),
            ChainOf(host, Initial(config, balances), steps, stamps, k);
      && S.ValidChain(c) && Records(c, s) && Published(c, s)
      && (forall j :: 0 <= j < |stamps| && k <= j + 1 && k > 0 ==> UpTo(c, stamps[j].ledger))
  {
    hide After, Accepted, Extended, S.ValidChain, Records, Published, UpTo;
    var s0 := Initial(config, balances);
    if k == 0 {
      EmptyChain(config, balances);
    } else {
      RunGivesChain(host, config, balances, steps, stamps, k - 1);
      var s, c := StateAt(host, s0, steps, k - 1), ChainOf(host, s0, steps, stamps, k - 1);
      var step, at := steps[k - 1], stamps[k - 1];
      assert UpTo(c, at.ledger) by {
        if k == 1 {
          NothingYet(at.ledger);
        }
      }
      if AcceptedAt(host, s0, steps, k - 1) {
        AcceptedEffect(host, s, step);
        ExtendedValid(c, step.proof, step.ext, at);
        CommitRecords(c, s, step.proof, step.ext, at);
        SameRecords(Extended(c, step.proof, step.ext, at), Commit(s, step.proof, step.ext), After(host, s, step));
      } else {
        OtherStepsPublishNothing(host, s, step);
        SameRecords(c, s, After(host, s, step));
      }
      var c' := ChainOf(host, s0, steps, stamps, k);
      forall j | k - 1 <= j < |stamps| ensures UpTo(c', stamps[j].ledger) {
        Later(c', at.ledger, stamps[j].ledger);
      }
    }
  }

  lemma EmptyChain(config: Config, balances: Balances)
    ensures var c, s := S.Chain([], map[]), Initial(config, balances);
      S.ValidChain(c) && Records(c, s) && Published(c, s)
  {
  }

  lemma NothingYet(ledger: nat)
    ensures UpTo(S.Chain([], map[]), ledger)
  {
  }

  lemma Later(c: S.Chain, ledger: nat, later: nat)
    requires UpTo(c, ledger) && ledger <= later
    ensures UpTo(c, later)
  {
  }

  lemma SameRecords(c: S.Chain, s: State, s': State)
    requires s'.leaves == s.leaves && s'.spent == s.spent && s'.events == s.events
    ensures (Records(c, s) ==> Records(c, s')) && (Published(c, s) ==> Published(c, s'))
  {
  }

  // ----- a repeated commitment

  /** The vault accepts a plan with two equal outputs: nothing in its checks or in the circuit compares
      them. The last two leaves are then equal. */
  lemma RepeatAccepted(host: Host, out: Outside, s: State, p: Plan, points: Groth16Proof, sender: Address)
    requires Sound(out.pr) && Sendable(out, p) && InRange(p.ext) && p.proof.publicAmount >= 0
    requires p.proof.nullifiers[0] != p.proof.nullifiers[1]
    requires s.config.Some? && SameWorld(host, out, p, s.config.value.domain, points) && Room(host, s, p, sender)
    requires p.outputs[0] == p.outputs[1]
    ensures var r := Transact(host, s, TxProofOf(p, points), ExtOf(p.ext), sender, true);
      && r.1 == Ok && |r.0.leaves| == |s.leaves| + 2
      && r.0.leaves[|s.leaves|] == r.0.leaves[|s.leaves| + 1]
  {
    PlanAccepted(host, out, s, p, points, sender);
    ProofValuesAt(out, p);
    hide Transact, Sendable, Room, SameWorld, Sound;
    AcceptedEffect(host, s, Call(TxProofOf(p, points), ExtOf(p.ext), sender, true));
  }

  /** There are such plans: an empty deposit whose two blindings are the same. */
  lemma EqualOutputsSendable(out: Outside, w: Wallet, root: F, dummy0: F, dummy1: F, blinding: F)
    requires Sound(out.pr) && WalletOk(out.pr, w)
    ensures var p := Shield(out, w, root, 0, dummy0, dummy1, blinding, blinding);
      Sendable(out, p) && InRange(p.ext) && p.proof.publicAmount >= 0 && p.outputs[0] == p.outputs[1]
  {
    hide Sound, Sendable, WalletOk;
    ShieldSendable(out, w, root, 0, dummy0, dummy1, blinding, blinding);
  }

  /** Once an accepted call has listed one commitment twice, the indexer never gets past its second leaf,
      whatever true events it is delivered. */
  lemma RepeatStopsIndexer(host: Host, config: Config, balances: Balances, steps: seq<Step>, stamps: seq<Stamp>,
                           k: nat, ops: seq<S.Op>)
    requires k < |steps| == |stamps| && Ordered(stamps) && AcceptedAt(host, Initial(config, balances), steps, k)
    requires 2 <= |steps[k].proof.outputCommitments|
    requires steps[k].proof.outputCommitments[0] == steps[k].proof.outputCommitments[1]
    requires var c := ChainOf(host, Initial(config, balances), steps, stamps, |steps|);
      forall op :: op in ops ==> S.GenuineOp(c, op)
    ensures I.NextLeaf(S.AfterOps(S.EMPTY, ops).commitments)
            <= |StateAt(host, Initial(config, balances), steps, k).leaves| + 1
  {
    hide ChainOf, After, Accepted, S.GenuineOp, S.AfterOps, S.ValidChain, Published, StateAt;
    var s0 := Initial(config, balances);
    RepeatStays(host, s0, steps, k);
    RunGivesChain(host, config, balances, steps, stamps, |steps|);
    var i := |StateAt(host, s0, steps, k).leaves|;
    S.DuplicateStopsTable(ChainOf(host, s0, steps, stamps, |steps|), ops, i, i + 1);
  }

  lemma RepeatStays(host: Host, s0: State, steps: seq<Step>, k: nat)
    requires k < |steps| && AcceptedAt(host, s0, steps, k) && 2 <= |steps[k].proof.outputCommitments|
    requires steps[k].proof.outputCommitments[0] == steps[k].proof.outputCommitments[1]
    ensures var leaves, i := StateAt(host, s0, steps, |steps|).leaves, |StateAt(host, s0, steps, k).leaves|;
      i + 1 < |leaves| && leaves[i] == leaves[i + 1]
  {
    hide After, Accepted;
    var s, step := StateAt(host, s0, steps, k), steps[k];
    AcceptedEffect(host, s, step);
    Grows(host, s0, steps, k + 1, |steps|);
    var mid, end := StateAt(host, s0, steps, k + 1).leaves, StateAt(host, s0, steps, |steps|).leaves;
    var i := |s.leaves|;
    assert mid == s.leaves + [step.proof.outputCommitments[0], step.proof.outputCommitments[1]];
    assert end[i] == mid[i] && end[i + 1] == mid[i + 1];
  }
}
