/** Whole runs of the vault: any sequence of calls, pauses and token movements by others. */
module VaultRuns {
  import opened Basics
  import opened PaddedTree
  import opened Field
  import opened Circuit
  import opened VaultSpec

  datatype Step =
    | Call(proof: TxProof, ext: ExtData, sender: Address, authorized: bool)
    | SetPaused(paused: bool)
    | TokenMove(from: Address, to: Address, amount: i128)

  ghost function After(host: Host, s: State, step: Step): State {
    match step
    case Call(proof, ext, sender, authorized) => Transact(host, s, proof, ext, sender, authorized).0
    case SetPaused(paused) => s.(paused := paused)
    case TokenMove(from, to, amount) =>
      var moved := Transfer(host, s.balances, from, to, amount);
      if moved.None? then s else s.(balances := moved.value)
  }

  ghost predicate Accepted(host: Host, s: State, step: Step) {
    step.Call? && Transact(host, s, step.proof, step.ext, step.sender, step.authorized).1.Ok?
  }

  /** State before step `k`, or at the end for k == |steps|. */
  ghost function StateAt(host: Host, s: State, steps: seq<Step>, k: nat): State
    requires k <= |steps|
  {
    if k == 0 then s else After(host, StateAt(host, s, steps, k - 1), steps[k - 1])
  }

  ghost function Final(host: Host, s: State, steps: seq<Step>): State {
    StateAt(host, s, steps, |steps|)
  }

  ghost predicate AcceptedAt(host: Host, s: State, steps: seq<Step>, k: nat)
    requires k < |steps|
  {
    Accepted(host, StateAt(host, s, steps, k), steps[k])
  }

  ghost function AcceptedCount(host: Host, s: State, steps: seq<Step>, k: nat): nat
    requires k <= |steps|
  {
    if k == 0 then 0
    else AcceptedCount(host, s, steps, k - 1) + if AcceptedAt(host, s, steps, k - 1) then 1 else 0
  }

  /** The vault authorizes no call of its own and nobody else can spend from its account. */
  predicate FromOthers(host: Host, step: Step) {
    match step
    case Call(_, _, sender, authorized) => authorized ==> sender != host.self
    case SetPaused(_) => true
    case TokenMove(from, _, _) => from != host.self
  }

  /** No token reaches the vault except as a deposit. */
  predicate PaysVaultOnlyByDeposit(host: Host, step: Step) {
    match step
    case Call(_, ext, _, _) => ext.recipient != host.self && ext.relayer != host.self
    case SetPaused(_) => true
    case TokenMove(_, to, _) => to != host.self
  }

  function Surplus(host: Host, s: State): int {
    BalanceOf(s.balances, host.self) - s.tvl
  }

  lemma StepKeepsCustody(host: Host, s: State, step: Step)
    requires s.config.Some? && Covered(host, s) && s.tvl <= s.config.value.tvlCap && FromOthers(host, step)
    ensures var s' := After(host, s, step);
      && s'.config == s.config && Covered(host, s') && s'.tvl <= s.config.value.tvlCap
      && Surplus(host, s) <= Surplus(host, s')
      && (PaysVaultOnlyByDeposit(host, step) ==> Surplus(host, s') == Surplus(host, s))
  {
    match step
    case Call(proof, ext, sender, authorized) =>
      if Accepted(host, s, step) {
        PayKeepsCover(host, s.balances, ext, sender);
      }
    case SetPaused(_) =>
    case TokenMove(from, to, amount) =>
      if Transfer(host, s.balances, from, to, amount).Some? {
        TransferMoves(host, s.balances, from, to, amount);
      }
  }

  /** Custody over runs: from a fresh vault, TVL stays within [0, cap] and the token balance covers
      it; the surplus is what others paid in, so with no such payments the balance is exactly the TVL
      above what the account held at the start. */
  lemma {:induction false} Custody(host: Host, config: Config, balances: Balances, steps: seq<Step>, k: nat)
    requires GoodConfig(config) && 0 <= BalanceOf(balances, host.self) && k <= |steps|
    requires forall j :: 0 <= j < k ==> FromOthers(host, steps[j])
    ensures var s := StateAt(host, Initial(config, balances), steps, k);
      && s.config == Some(config)
      && 0 <= s.tvl <= config.tvlCap && s.tvl <= BalanceOf(s.balances, host.self)
      && BalanceOf(balances, host.self) <= Surplus(host, s)
      && ((forall j :: 0 <= j < k ==> PaysVaultOnlyByDeposit(host, steps[j])) ==>
            Surplus(host, s) == BalanceOf(balances, host.self))
  {
    if k > 0 {
      Custody(host, config, balances, steps, k - 1);
      StepKeepsCustody(host, StateAt(host, Initial(config, balances), steps, k - 1), steps[k - 1]);
    }
  }

  /** What an accepted call did: its nullifiers were all fresh, there was room for two leaves, and the
      new state is the committed one up to token balances. */
  lemma AcceptedEffect(host: Host, s: State, step: Step)
    requires Accepted(host, s, step)
    ensures step.Call?
    ensures 2 <= |step.proof.outputCommitments| && InI128(s.tvl + Signed(step.ext))
    ensures After(host, s, step) == Commit(s, step.proof, step.ext).(balances := After(host, s, step).balances)
    ensures forall n :: n in step.proof.inputNullifiers ==> n !in s.spent
    ensures |s.leaves| + 2 <= Pow2(DEPTH)
  {
    hide IsKnown, Pay, Commit, CalcPublicAmount, Canonical, PublicInputs, Pow2;
    AcceptedIff(host, s, step.proof, step.ext, step.sender, step.authorized);
  }

  lemma StepGrows(host: Host, s: State, step: Step)
    ensures s.leaves <= After(host, s, step).leaves
    ensures s.spent <= After(host, s, step).spent
    ensures s.events <= After(host, s, step).events
  {
    hide Attempt, Rejection;
    if Accepted(host, s, step) {
      AcceptedEffect(host, s, step);
    } else if step.Call? {
      RejectedKeeps(host, s, step);
    }
  }

  lemma RejectedKeeps(host: Host, s: State, step: Step)
    requires step.Call? && !Accepted(host, s, step)
    ensures After(host, s, step) == s
  {
    hide Rejection, Pay, Commit;
  }

  /** Leaves and spent nullifiers are only ever added. */
  lemma {:induction false} Grows(host: Host, s: State, steps: seq<Step>, i: nat, k: nat)
    requires i <= k <= |steps|
    ensures StateAt(host, s, steps, i).leaves <= StateAt(host, s, steps, k).leaves
    ensures StateAt(host, s, steps, i).spent <= StateAt(host, s, steps, k).spent
    ensures StateAt(host, s, steps, i).events <= StateAt(host, s, steps, k).events
  {
    hide After;
    if i < k {
      Grows(host, s, steps, i, k - 1);
      StepGrows(host, StateAt(host, s, steps, k - 1), steps[k - 1]);
    }
  }

  /** Spend once: no two accepted calls of a run share a nullifier. */
  lemma SpendOnce(host: Host, s: State, steps: seq<Step>, i: nat, j: nat, n: F)
    requires i < j < |steps| && AcceptedAt(host, s, steps, i) && AcceptedAt(host, s, steps, j)
    requires n in steps[i].proof.inputNullifiers
    ensures n !in steps[j].proof.inputNullifiers
  {
    hide After, Accepted;
    AcceptedEffect(host, StateAt(host, s, steps, i), steps[i]);
    assert n in StateAt(host, s, steps, i + 1).spent;
    Grows(host, s, steps, i + 1, j);
    AcceptedEffect(host, StateAt(host, s, steps, j), steps[j]);
  }

  /** Once spent, a nullifier is refused for good, whatever else the call says. */
  lemma SpentIsForever(host: Host, s: State, steps: seq<Step>, i: nat, j: nat, n: F)
    requires i <= j < |steps| && n in StateAt(host, s, steps, i).spent
    requires steps[j].Call? && n in steps[j].proof.inputNullifiers
    ensures !AcceptedAt(host, s, steps, j)
    ensures StateAt(host, s, steps, j + 1) == StateAt(host, s, steps, j)
  {
    hide After, Accepted;
    Grows(host, s, steps, i, j);
    var sj := StateAt(host, s, steps, j);
    if AcceptedAt(host, s, steps, j) {
      AcceptedEffect(host, sj, steps[j]);
      assert false;
    }
    RejectedKeeps(host, sj, steps[j]);
  }

  /** Values of the commitment events, with the index each announced. */
  function Announced(events: seq<Event>): seq<(nat, F)> {
    if events == [] then []
    else
      var last := events[|events| - 1];
      Announced(events[..|events| - 1]) +
      match last
      case NewCommitment(index, c, _) => [(index, c)]
      case NewNullifier(_) => []
  }

  function Numbered(leaves: seq<F>): seq<(nat, F)> {
    seq(|leaves|, k requires 0 <= k < |leaves| => (k, leaves[k]))
  }

  lemma {:induction false} AnnouncedAppend(es: seq<Event>, more: seq<Event>)
    ensures Announced(es + more) == Announced(es) + Announced(more)
  {
    if more == [] {
      assert es + more == es;
    } else {
      assert (es + more)[..|es + more| - 1] == es + more[..|more| - 1];
      AnnouncedAppend(es, more[..|more| - 1]);
    }
  }

  lemma {:induction false} AnnouncedNullifiers(ns: seq<F>)
    ensures Announced(NullifierEvents(ns)) == []
  {
    if ns != [] {
      assert NullifierEvents(ns)[..|ns| - 1] == NullifierEvents(ns[..|ns| - 1]);
      AnnouncedNullifiers(ns[..|ns| - 1]);
    }
  }

  lemma NumberedAppendTwo(leaves: seq<F>, c0: F, c1: F)
    ensures Numbered(leaves + [c0, c1]) == Numbered(leaves) + [(|leaves|, c0), (|leaves| + 1, c1)]
  {
  }

  lemma AnnouncedOne(index: nat, c: F, out: Bytes)
    ensures Announced([NewCommitment(index, c, out)]) == [(index, c)]
  {
  }

  lemma CommitAnnounces(s: State, proof: TxProof, ext: ExtData)
    requires InI128(s.tvl + Signed(ext)) && 2 <= |proof.outputCommitments|
    requires Announced(s.events) == Numbered(s.leaves)
    ensures Announced(Commit(s, proof, ext).events) == Numbered(Commit(s, proof, ext).leaves)
  {
    hide Announced, Numbered, NullifierEvents;
    var n := |s.leaves|;
    var c0, c1 := proof.outputCommitments[0], proof.outputCommitments[1];
    var e0, e1 := NewCommitment(n, c0, ext.encryptedOutput0), NewCommitment(n + 1, c1, ext.encryptedOutput1);
    AnnouncedAppend(s.events + NullifierEvents(proof.inputNullifiers), [e0, e1]);
    AnnouncedAppend(s.events, NullifierEvents(proof.inputNullifiers));
    AnnouncedNullifiers(proof.inputNullifiers);
    AnnouncedAppend([e0], [e1]);
    assert [e0] + [e1] == [e0, e1];
    AnnouncedOne(n, c0, ext.encryptedOutput0);
    AnnouncedOne(n + 1, c1, ext.encryptedOutput1);
    NumberedAppendTwo(s.leaves, c0, c1);
  }

  lemma NothingAnnounced()
    ensures Announced([]) == Numbered([])
  {
  }

  lemma OtherStepsAddNothing(host: Host, s: State, step: Step)
    requires !Accepted(host, s, step)
    ensures After(host, s, step).leaves == s.leaves && After(host, s, step).events == s.events
  {
    if step.Call? {
      RejectedKeeps(host, s, step);
    }
  }

  /** Capacity: from a fresh vault the number of leaves is twice the number of accepted calls and never
      exceeds 2^20, and the commitment events announce exactly the leaves, each with its own position. */
  lemma {:induction false} CapacityAndEvents(host: Host, config: Config, balances: Balances, steps: seq<Step>, k: nat)
    requires k <= |steps|
    ensures var s := StateAt(host, Initial(config, balances), steps, k);
      && |s.leaves| == 2 * AcceptedCount(host, Initial(config, balances), steps, k) <= Pow2(DEPTH)
      && Announced(s.events) == Numbered(s.leaves)
  {
    hide After, Accepted, Announced, Numbered, Pow2;
    var s0 := Initial(config, balances);
    if k == 0 {
      NothingAnnounced();
    } else {
      CapacityAndEvents(host, config, balances, steps, k - 1);
      var s, step := StateAt(host, s0, steps, k - 1), steps[k - 1];
      if AcceptedAt(host, s0, steps, k - 1) {
        AcceptedEffect(host, s, step);
        CommitAnnounces(s, step.proof, step.ext);
      } else {
        OtherStepsAddNothing(host, s, step);
      }
    }
  }
}
