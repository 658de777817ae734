/** The vault contract as it runs: checks, writes and token transfers in order, inside a host that
    undoes everything when the call fails. Each call is one step of the VaultSpec machine. */
module VaultContract {
  import opened Basics
  import opened PaddedTree
  import opened Field
  import opened Circuit
  import opened VaultSpec
  import FrontierTree

  class Token {
    var balances: Balances

    constructor (balances: Balances)
      ensures this.balances == balances
    {
      this.balances := balances;
    }

    method Transfer(host: Host, from: Address, to: Address, amount: i128) returns (ok: bool)
      modifies this
      ensures ok <==> VaultSpec.Transfer(host, old(balances), from, to, amount).Some?
      ensures balances == if ok then VaultSpec.Transfer(host, old(balances), from, to, amount).value else old(balances)
    {
      var r := VaultSpec.Transfer(host, balances, from, to, amount);
      if r.None? {
        return false;
      }
      balances := r.value;
      return true;
    }
  }

  class Vault {
    const host: Host
    const token: Token
    var config: Option<Config>
    var tvl: i128
    var paused: bool
    var locked: bool
    var spent: set<F>
    var events: seq<Event>
    var tree: FrontierTree.Tree?

    ghost predicate Valid()
      reads this, tree
    {
      (config.Some? <==> tree != null) &&
      (tree != null ==>
         tree.Valid() && tree.h == host.pr.compress && tree.depth == DEPTH && tree.history == ROOT_HISTORY)
    }

    ghost function Abs(): State
      reads this, tree, token
    {
      State(config, tvl, paused, locked, spent, if tree == null then [] else tree.leaves, events, token.balances)
    }

    constructor (host: Host, token: Token)
      ensures Valid() && this.host == host && this.token == token
      ensures Abs() == State(None, 0, false, false, {}, [], [], token.balances)
    {
      this.host, this.token := host, token;
      config, tvl, paused, locked, spent, events, tree := None, 0, false, false, {}, [], null;
    }

    /** First caller sets the configuration and the empty tree; afterwards nothing can. */
    method Init(c: Config) returns (outcome: Outcome)
      requires Valid()
      modifies this
      ensures Valid()
      ensures outcome.Ok? <==> old(config).None? && GoodConfig(c)
      ensures outcome.Err? ==> Abs() == old(Abs())
      ensures outcome.Err? ==>
                outcome.error == if old(config).Some? then AlreadyInitialized
                                 else if c.domain == 0 || !Canonical(c.domain) then BadDomain else BadConfig
      ensures outcome.Ok? ==> Abs() == old(Abs()).(config := Some(c), tvl := 0, paused := false, leaves := [])
      ensures outcome.Ok? ==> fresh(tree)
      ensures outcome.Err? ==> tree == old(tree)
    {
      if config.Some? {
        return Err(AlreadyInitialized);
      }
      if c.domain == 0 || !Canonical(c.domain) {
        return Err(BadDomain);
      }
      if c.maxDeposit <= 0 || c.tvlCap < c.maxDeposit {
        return Err(BadConfig);
      }
      var t := new FrontierTree.Tree(host.pr.compress, DEPTH, ROOT_HISTORY);
      config, tvl, paused, tree := Some(c), 0, false, t;
      return Ok;
    }

    method IsSpent(n: F) returns (r: bool)
      ensures r <==> n in spent
    {
      return n in spent;
    }

    /** Records a nullifier; false when it was there already. */
    method MarkSpent(n: F) returns (added: bool)
      modifies this`spent
      ensures added <==> n !in old(spent)
      ensures spent == old(spent) + {n}
    {
      var already := IsSpent(n);
      if already {
        return false;
      }
      spent := spent + {n};
      return true;
    }

    method AllCanonical(xs: seq<F>) returns (r: bool)
      ensures r <==> forall x :: x in xs ==> Canonical(x)
    {
      for k := 0 to |xs|
        invariant forall j :: 0 <= j < k ==> Canonical(xs[j])
      {
        if !Canonical(xs[k]) {
          return false;
        }
      }
      return true;
    }

    method AnySpent(xs: seq<F>) returns (r: bool)
      ensures r <==> exists x :: x in xs && x in spent
    {
      for k := 0 to |xs|
        invariant forall j :: 0 <= j < k ==> xs[j] !in spent
      {
        var s := IsSpent(xs[k]);
        if s {
          return true;
        }
      }
      return false;
    }

    /** Spends the input nullifiers one by one, publishing each. */
    method SpendAll(ns: seq<F>)
      modifies this`spent, this`events
      ensures spent == old(spent) + (set x | x in ns)
      ensures events == old(events) + NullifierEvents(ns)
    {
      for k := 0 to |ns|
        invariant spent == old(spent) + (set x | x in ns[..k])
        invariant events == old(events) + NullifierEvents(ns[..k])
      {
        var _ := MarkSpent(ns[k]);
        events := events + [NewNullifier(ns[k])];
        assert ns[..k + 1] == ns[..k] + [ns[k]];
        assert NullifierEvents(ns[..k + 1]) == NullifierEvents(ns[..k]) + [NewNullifier(ns[k])];
      }
      assert ns[..|ns|] == ns;
    }

    method PublicInputVector(proof: TxProof, domain: F) returns (v: seq<F>)
      ensures v == PublicInputs(proof, domain)
    {
      v := [ToFr(proof.root), ToFr(proof.publicAmount), ToFr(proof.extDataHash), ToFr(domain)];
      ghost var head := v;
      var ns, cs := proof.inputNullifiers, proof.outputCommitments;
      for k := 0 to |ns|
        invariant v == head + ToFrs(ns[..k])
      {
        v := v + [ToFr(ns[k])];
        assert ToFrs(ns[..k + 1]) == ToFrs(ns[..k]) + [ToFr(ns[k])];
      }
      assert ns[..|ns|] == ns;
      for k := 0 to |cs|
        invariant v == head + ToFrs(ns) + ToFrs(cs[..k])
      {
        v := v + [ToFr(cs[k])];
        assert ToFrs(cs[..k + 1]) == ToFrs(cs[..k]) + [ToFr(cs[k])];
      }
      assert cs[..|cs|] == cs;
    }

    /** Refuses a list of public inputs that does not match the verification key before looking at it. */
    method VerifyGroth16(points: Groth16Proof, signals: seq<F>) returns (ok: bool)
      ensures ok <==> |signals| == 8 && host.verify(points, signals)
    {
      if |signals| + 1 != IC_POINTS {
        return false;
      }
      return host.verify(points, signals);
    }

    /** The checks before any write, in the contract's order. */
    method Check(proof: TxProof, ext: ExtData) returns (rejection: Option<Error>)
      requires Valid() && !locked
      ensures rejection == Rejection(host, Abs(), proof, ext, true)
    {
      hide Canonical, CalcPublicAmount, PublicInputs, Pow2, FrontierTree.KnownRoot;
      if paused { return Some(Paused); }
      if config.None? { return Some(NotInitialized); }
      if ext.fee < 0 { return Some(BadExtData); }
      var signed := ext.extAmount - ext.fee;
      if !InI128(signed) { return Some(BadExtData); }
      if !Canonical(proof.root) || !Canonical(proof.publicAmount) || !Canonical(proof.extDataHash) {
        return Some(NonCanonicalInput);
      }
      var nullsOk := AllCanonical(proof.inputNullifiers);
      if !nullsOk { return Some(NonCanonicalInput); }
      var commsOk := AllCanonical(proof.outputCommitments);
      if !commsOk { return Some(NonCanonicalInput); }
      if ext.extAmount > config.value.maxDeposit { return Some(DepositTooLarge); }
      var newTvl := tvl + signed;
      if !InI128(newTvl) { return Some(BadExtData); }
      if newTvl < 0 { return Some(BadExtData); }
      if newTvl > config.value.tvlCap { return Some(DepositTooLarge); }
      var full := tree.IsFull();
      if full { return Some(TreeFull); }
      var known := tree.IsKnownRoot(proof.root);
      if !known { return Some(UnknownRoot); }
      var anySpent := AnySpent(proof.inputNullifiers);
      if anySpent { return Some(SpentNullifier); }
      if host.hashExtData(ext) != proof.extDataHash { return Some(WrongExtHash); }
      if CalcPublicAmount(signed) != proof.publicAmount { return Some(WrongPublicAmount); }
      var signals := PublicInputVector(proof, config.value.domain);
      var verified := VerifyGroth16(proof.points, signals);
      if !verified { return Some(InvalidProof); }
      return None;
    }

    method InsertTwo(c0: F, c1: F) returns (i0: nat, i1: nat)
      requires tree != null && tree.Valid()
      modifies tree
      ensures tree.Valid() && tree.zeros == old(tree.zeros)
      ensures tree.leaves == old(tree.leaves) + [c0, c1]
      ensures i0 == |old(tree.leaves)| && i1 == i0 + 1
    {
      var r0, r1;
      i0, r0 := tree.Insert(c0);
      i1, r1 := tree.Insert(c1);
    }

    /** The state writes of a call that passed the checks; they come before any transfer. */
    method Record(proof: TxProof, ext: ExtData)
      requires Valid() && config.Some? && InI128(tvl + Signed(ext)) && 2 <= |proof.outputCommitments|
      modifies this`tvl, this`spent, this`events, tree
      ensures Valid() && tree.zeros == old(tree.zeros)
      ensures Abs() == Commit(old(Abs()), proof, ext)
    {
      tvl := tvl + Signed(ext);
      SpendAll(proof.inputNullifiers);
      var c0, c1 := proof.outputCommitments[0], proof.outputCommitments[1];
      var i0, i1 := InsertTwo(c0, c1);
      events := events + [NewCommitment(i0, c0, ext.encryptedOutput0)];
      events := events + [NewCommitment(i1, c1, ext.encryptedOutput1)];
    }

    /** The token transfers: false when the token refused one, perhaps after an earlier one went through. */
    method MoveFunds(ext: ExtData, sender: Address) returns (ok: bool)
      requires I128_MIN < ext.extAmount
      modifies token
      ensures ok <==> Pay(host, old(token.balances), ext, sender).Some?
      ensures ok ==> token.balances == Pay(host, old(token.balances), ext, sender).value
      ensures ok && 0 <= ext.fee ==>
                forall a :: BalanceOf(token.balances, a) - BalanceOf(old(token.balances), a)
                            == (if a == ext.recipient && ext.extAmount < 0 then -ext.extAmount else 0)
                             + (if a == ext.relayer then ext.fee else 0)
                             - (if a == sender && ext.extAmount > 0 then ext.extAmount else 0)
                             + (if a == host.self then Signed(ext) else 0)
    {
      hide VaultSpec.Transfer, BalanceOf;
      ok := true;
      if ext.extAmount > 0 {
        ok := token.Transfer(host, sender, host.self, ext.extAmount);
      } else if ext.extAmount < 0 {
        ok := token.Transfer(host, host.self, ext.recipient, -ext.extAmount);
      }
      if ok && ext.fee > 0 {
        ok := token.Transfer(host, host.self, ext.relayer, ext.fee);
      }
      if ok && 0 <= ext.fee {
        forall a {
          PayMoves(host, old(token.balances), ext, sender, a);
        }
      }
    }

    /** A call after its checks. On an error the writes made so far are still there. */
    method Apply(proof: TxProof, ext: ExtData, sender: Address) returns (outcome: Outcome)
      requires Valid() && config.Some? && InI128(tvl + Signed(ext))
      modifies this`tvl, this`spent, this`events, tree, token
      ensures Valid() && tree.zeros == old(tree.zeros)
      ensures |proof.outputCommitments| < 2 || ext.extAmount == I128_MIN ==> outcome == Err(BadExtData)
      ensures 2 <= |proof.outputCommitments| && ext.extAmount != I128_MIN ==>
                var paid := Pay(host, old(token.balances), ext, sender);
                && outcome == (if paid.Some? then Ok else Err(HostTrap))
                && (paid.Some? ==> Abs() == Commit(old(Abs()), proof, ext).(balances := paid.value))
    {
      if |proof.outputCommitments| < 2 {
        tvl := tvl + Signed(ext);
        SpendAll(proof.inputNullifiers);
        return Err(BadExtData);
      }
      Record(proof, ext);
      if ext.extAmount == I128_MIN {
        return Err(BadExtData);
      }
      var ok := MoveFunds(ext, sender);
      return if ok then Ok else Err(HostTrap);
    }

    /** The host's undo of a failed invocation. */
    method Undo(tvl: i128, spent: set<F>, events: seq<Event>, balances: Balances,
                frontier: seq<F>, roots: seq<F>, currentRootIndex: nat, nextLeafIndex: nat, ghost leaves: seq<F>)
      requires tree != null
      modifies this`tvl, this`spent, this`events, this`locked, tree, token
      ensures this.tvl == tvl && this.spent == spent && this.events == events && !locked && token.balances == balances
      ensures tree.frontier == frontier && tree.roots == roots && tree.currentRootIndex == currentRootIndex
      ensures tree.nextLeafIndex == nextLeafIndex && tree.leaves == leaves && tree.zeros == old(tree.zeros)
    {
      this.tvl, this.spent, this.events, this.locked, token.balances := tvl, spent, events, false, balances;
      tree.frontier, tree.roots, tree.currentRootIndex := frontier, roots, currentRootIndex;
      tree.nextLeafIndex, tree.leaves := nextLeafIndex, leaves;
    }

    /** A call that passed its checks, under the lock: kept when it succeeds, undone when it fails. */
    method Attempt(proof: TxProof, ext: ExtData, sender: Address) returns (outcome: Outcome)
      requires Valid() && config.Some? && !locked && InI128(tvl + Signed(ext))
      modifies this`tvl, this`spent, this`events, this`locked, tree, token
      ensures Valid()
      ensures (Abs(), outcome) == VaultSpec.Attempt(host, old(Abs()), proof, ext, sender)
    {
      var t, sp, ev, b := tvl, spent, events, token.balances;
      var frontier, roots, root, next := tree.frontier, tree.roots, tree.currentRootIndex, tree.nextLeafIndex;
      ghost var leaves := tree.leaves;
      locked := true;
      outcome := Apply(proof, ext, sender);
      if outcome.Err? {
        Undo(t, sp, ev, b, frontier, roots, root, next, leaves);
      } else {
        locked := false;
      }
    }

    /** One host invocation of transact. */
    method Transact(proof: TxProof, ext: ExtData, sender: Address, authorized: bool) returns (outcome: Outcome)
      requires Valid()
      modifies this, tree, token
      ensures Valid() && tree == old(tree)
      ensures (Abs(), outcome) == VaultSpec.Transact(host, old(Abs()), proof, ext, sender, authorized)
      ensures outcome.Ok? ==>
                forall a :: BalanceOf(token.balances, a) - BalanceOf(old(token.balances), a)
                            == (if a == ext.recipient && ext.extAmount < 0 then -ext.extAmount else 0)
                             + (if a == ext.relayer then ext.fee else 0)
                             - (if a == sender && ext.extAmount > 0 then ext.extAmount else 0)
                             + (if a == host.self then Signed(ext) else 0)
    {
      hide VaultSpec.Attempt, BalanceOf;
      if !authorized {
        return Err(HostTrap);
      }
      if locked {
        return Err(Reentrancy);
      }
      var rejection := Check(proof, ext);
      if rejection.Some? {
        return Err(rejection.value);
      }
      outcome := Attempt(proof, ext, sender);
      if outcome.Ok? {
        forall a {
          AcceptedMoves(host, old(Abs()), proof, ext, sender, authorized, a);
        }
      }
    }

    method CurrentRoot() returns (r: F)
      requires Valid() && config.Some?
      ensures r == FrontierTree.RootAfter(host.pr.compress, DEPTH, Abs().leaves)
    {
      r := tree.CurrentRoot();
    }

    method IsKnownRoot(root: F) returns (known: bool)
      requires Valid() && config.Some?
      ensures known <==> IsKnown(host, Abs().leaves, root)
    {
      known := tree.IsKnownRoot(root);
    }
  }
}
