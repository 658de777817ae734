/** The vault's transact entry point as a step of a state machine over values. A rejected call
    leaves the state as it was: the host rolls back every write of a failed invocation. */
module VaultSpec {
  import opened Basics
  import opened PaddedTree
  import opened Field
  import opened Circuit
  import FrontierTree

  const DEPTH: nat := LEVELS
  const ROOT_HISTORY: nat := 64

  /** Points of the verification key: one for the constant term and one for each public input. */
  const IC_POINTS: nat := 9

  datatype Address = Address(id: nat)

  datatype Error =
    | AlreadyInitialized | NotInitialized | UnknownRoot | SpentNullifier | WrongExtHash
    | WrongPublicAmount | InvalidProof | DepositTooLarge | BadExtData | Reentrancy | TreeFull
    | NonCanonicalInput | BadDomain | Paused | BadConfig
    | HostTrap  // authorization or token transfer refused by the host

  datatype Groth16Proof = Groth16Proof(a: nat, b: nat, c: nat)

  datatype TxProof = TxProof(points: Groth16Proof, root: F, publicAmount: F, extDataHash: F,
                             inputNullifiers: seq<F>, outputCommitments: seq<F>)

  datatype ExtData = ExtData(extAmount: i128, fee: i128, recipient: Address, relayer: Address,
                             encryptedOutput0: Bytes, encryptedOutput1: Bytes)

  datatype Config = Config(admin: Address, token: Address, domain: F, maxDeposit: i128, tvlCap: i128)

  datatype Event =
    | NewNullifier(nullifier: F)
    | NewCommitment(index: nat, commitment: F, encryptedOutput: Bytes)

  /** What the contract gets from its host: hash and curve primitives, the proof check, the ext data
      hash, its own address, and which accounts can hold the token. */
  datatype Host = Host(pr: Primitives, verify: (Groth16Proof, seq<F>) -> bool, hashExtData: ExtData -> F,
                       self: Address, holds: Address -> bool)

  type Balances = map<Address, i128>

  datatype State = State(config: Option<Config>, tvl: i128, paused: bool, locked: bool,
                         spent: set<F>, leaves: seq<F>, events: seq<Event>, balances: Balances)

  datatype Outcome = Ok | Err(error: Error)

  function BalanceOf(b: Balances, a: Address): i128 {
    if a in b then b[a] else 0
  }

  /** The token contract's transfer; it refuses an uncovered amount, an overflowing balance and an
      account that cannot hold the token. */
  function Transfer(host: Host, b: Balances, from: Address, to: Address, amount: i128): (r: Option<Balances>) {
    if amount < 0 || BalanceOf(b, from) < amount || !host.holds(to) then None
    else
      var b' := b[from := BalanceOf(b, from) - amount];
      if !InI128(BalanceOf(b', to) + amount) then None
      else Some(b'[to := BalanceOf(b', to) + amount])
  }

  /** Deposit in, or withdrawal out, then the fee out. */
  function Pay(host: Host, b: Balances, ext: ExtData, sender: Address): (r: Option<Balances>)
    requires I128_MIN < ext.extAmount
  {
    var first :=
      if ext.extAmount > 0 then Transfer(host, b, sender, host.self, ext.extAmount)
      else if ext.extAmount < 0 then Transfer(host, b, host.self, ext.recipient, -ext.extAmount)
      else Some(b);
    if first.None? || ext.fee <= 0 then first
    else Transfer(host, first.value, host.self, ext.relayer, ext.fee)
  }

  /** A 256-bit value as a field element: x and x + P are the same one. */
  function ToFr(x: F): F {
    x % P
  }

  function ToFrs(xs: seq<F>): seq<F> {
    seq(|xs|, k requires 0 <= k < |xs| => ToFr(xs[k]))
  }

  /** What the proof check gets, in the contract's order. */
  function PublicInputs(proof: TxProof, domain: F): seq<F> {
    [ToFr(proof.root), ToFr(proof.publicAmount), ToFr(proof.extDataHash), ToFr(domain)]
    + ToFrs(proof.inputNullifiers) + ToFrs(proof.outputCommitments)
  }

  /** The proof check: the number of public inputs, and the pairing equation. */
  predicate Verified(host: Host, points: Groth16Proof, signals: seq<F>) {
    |signals| + 1 == IC_POINTS && host.verify(points, signals)
  }

  function Signed(ext: ExtData): int {
    ext.extAmount - ext.fee
  }

  ghost predicate IsKnown(host: Host, leaves: seq<F>, root: F) {
    FrontierTree.KnownRoot(host.pr.compress, DEPTH, ROOT_HISTORY, leaves, root)
  }

  /** The first failing check of a call, in the contract's order; None when it goes on to the
      writes. */
  ghost function Rejection(host: Host, s: State, proof: TxProof, ext: ExtData, authorized: bool): Option<Error> {
    if !authorized then Some(HostTrap)
    else if s.locked then Some(Reentrancy)
    else if s.paused then Some(Paused)
    else if s.config.None? then Some(NotInitialized)
    else if ext.fee < 0 then Some(BadExtData)
    else if !InI128(Signed(ext)) then Some(BadExtData)
    else if !Canonical(proof.root) || !Canonical(proof.publicAmount) || !Canonical(proof.extDataHash)
        then Some(NonCanonicalInput)
    else if exists n :: n in proof.inputNullifiers && !Canonical(n) then Some(NonCanonicalInput)
    else if exists c :: c in proof.outputCommitments && !Canonical(c) then Some(NonCanonicalInput)
    else if ext.extAmount > s.config.value.maxDeposit then Some(DepositTooLarge)
    else if !InI128(s.tvl + Signed(ext)) then Some(BadExtData)
    else if s.tvl + Signed(ext) < 0 then Some(BadExtData)
    else if s.tvl + Signed(ext) > s.config.value.tvlCap then Some(DepositTooLarge)
    else if Pow2(DEPTH) < |s.leaves| + 2 then Some(TreeFull)
    else if !IsKnown(host, s.leaves, proof.root) then Some(UnknownRoot)
    else if exists n :: n in proof.inputNullifiers && n in s.spent then Some(SpentNullifier)
    else if host.hashExtData(ext) != proof.extDataHash then Some(WrongExtHash)
    else if CalcPublicAmount(Signed(ext)) != proof.publicAmount then Some(WrongPublicAmount)
    else if !Verified(host, proof.points, PublicInputs(proof, s.config.value.domain)) then Some(InvalidProof)
    else None
  }

  function NullifierEvents(ns: seq<F>): (es: seq<Event>)
    ensures |es| == |ns| && forall k :: 0 <= k < |ns| ==> es[k] == NewNullifier(ns[k])
  {
    seq(|ns|, k requires 0 <= k < |ns| => NewNullifier(ns[k]))
  }

  /** The writes of an accepted call before any funds move. */
  function Commit(s: State, proof: TxProof, ext: ExtData): State
    requires InI128(s.tvl + Signed(ext)) && 2 <= |proof.outputCommitments|
  {
    var n := |s.leaves|;
    var c0, c1 := proof.outputCommitments[0], proof.outputCommitments[1];
    s.(tvl := s.tvl + Signed(ext),
       spent := s.spent + (set x | x in proof.inputNullifiers),
       leaves := s.leaves + [c0, c1],
       events := s.events + NullifierEvents(proof.inputNullifiers)
                 + [NewCommitment(n, c0, ext.encryptedOutput0), NewCommitment(n + 1, c1, ext.encryptedOutput1)])
  }

  /** A call that passed the checks: outcome and the state the host keeps. */
  function Attempt(host: Host, s: State, proof: TxProof, ext: ExtData, sender: Address): (State, Outcome)
    requires InI128(s.tvl + Signed(ext))
  {
    if |proof.outputCommitments| < 2 || ext.extAmount == I128_MIN then (s, Err(BadExtData))
    else
      var c := Commit(s, proof, ext);
      var paid := Pay(host, c.balances, ext, sender);
      if paid.None? then (s, Err(HostTrap)) else (c.(balances := paid.value), Ok)
  }

  /** One call: its outcome and the state the host keeps. */
  ghost function Transact(host: Host, s: State, proof: TxProof, ext: ExtData, sender: Address, authorized: bool)
    : (State, Outcome)
  {
    var rejection := Rejection(host, s, proof, ext, authorized);
    if rejection.Some? then (s, Err(rejection.value)) else Attempt(host, s, proof, ext, sender)
  }

  /** The state after init: nothing deposited, nothing spent, an empty tree. */
  function Initial(config: Config, balances: Balances): State {
    State(Some(config), 0, false, false, {}, [], [], balances)
  }

  /** Init's own checks on the configuration. */
  predicate GoodConfig(c: Config) {
    c.domain != 0 && Canonical(c.domain) && 0 < c.maxDeposit <= c.tvlCap
  }

  // ----- single-step facts

  /** When a call is accepted: the checks as one condition, independent of their order. */
  lemma AcceptedIff(host: Host, s: State, proof: TxProof, ext: ExtData, sender: Address, authorized: bool)
    ensures Transact(host, s, proof, ext, sender, authorized).1.Ok? <==>
      && authorized && !s.locked && !s.paused && s.config.Some?
      && 0 <= ext.fee && InI128(Signed(ext))
      && Canonical(proof.root) && Canonical(proof.publicAmount) && Canonical(proof.extDataHash)
      && (forall n :: n in proof.inputNullifiers ==> Canonical(n) && n !in s.spent)
      && (forall c :: c in proof.outputCommitments ==> Canonical(c))
      && 2 <= |proof.outputCommitments|
      && ext.extAmount <= s.config.value.maxDeposit
      && InI128(s.tvl + Signed(ext)) && 0 <= s.tvl + Signed(ext) <= s.config.value.tvlCap
      && |s.leaves| + 2 <= Pow2(DEPTH)
      && IsKnown(host, s.leaves, proof.root)
      && host.hashExtData(ext) == proof.extDataHash
      && CalcPublicAmount(Signed(ext)) == proof.publicAmount
      && Verified(host, proof.points, PublicInputs(proof, s.config.value.domain))
      && I128_MIN < ext.extAmount && Pay(host, s.balances, ext, sender).Some?
  {
    hide IsKnown, Pay, Canonical, CalcPublicAmount, PublicInputs, Pow2;
  }

  /** Custody: the vault's balance covers what it owes. */
  predicate Covered(host: Host, s: State) {
    0 <= s.tvl <= BalanceOf(s.balances, host.self)
  }

  /** Tokens are conserved between two accounts and no other account changes. */
  lemma TransferMoves(host: Host, b: Balances, from: Address, to: Address, amount: i128)
    requires Transfer(host, b, from, to, amount).Some?
    ensures var b' := Transfer(host, b, from, to, amount).value;
      && (from != to ==>
            && BalanceOf(b', from) == BalanceOf(b, from) - amount
            && BalanceOf(b', to) == BalanceOf(b, to) + amount)
      && (from == to ==> BalanceOf(b', to) == BalanceOf(b, to))
      && forall a :: a != from && a != to ==> BalanceOf(b', a) == BalanceOf(b, a)
  {
  }

  /** Who gets the money: the recipient what is withdrawn, the relayer the fee, from the vault; a deposit
      goes from the sender to the vault. Accounts may coincide, and no other account changes. */
  lemma PayMoves(host: Host, b: Balances, ext: ExtData, sender: Address, a: Address)
    requires I128_MIN < ext.extAmount && 0 <= ext.fee && Pay(host, b, ext, sender).Some?
    ensures BalanceOf(Pay(host, b, ext, sender).value, a) - BalanceOf(b, a)
            == (if a == ext.recipient && ext.extAmount < 0 then -ext.extAmount else 0)
             + (if a == ext.relayer then ext.fee else 0)
             - (if a == sender && ext.extAmount > 0 then ext.extAmount else 0)
             + (if a == host.self then Signed(ext) else 0)
  {
    hide Transfer;
    var mid := b;
    if ext.extAmount > 0 {
      TransferMoves(host, b, sender, host.self, ext.extAmount);
      mid := Transfer(host, b, sender, host.self, ext.extAmount).value;
    } else if ext.extAmount < 0 {
      TransferMoves(host, b, host.self, ext.recipient, -ext.extAmount);
      mid := Transfer(host, b, host.self, ext.recipient, -ext.extAmount).value;
    }
    if ext.fee > 0 {
      TransferMoves(host, mid, host.self, ext.relayer, ext.fee);
    }
  }

  /** The same of an accepted call, from the state before to the state after. */
  lemma AcceptedMoves(host: Host, s: State, proof: TxProof, ext: ExtData, sender: Address, authorized: bool, a: Address)
    requires Transact(host, s, proof, ext, sender, authorized).1.Ok?
    ensures BalanceOf(Transact(host, s, proof, ext, sender, authorized).0.balances, a) - BalanceOf(s.balances, a)
            == (if a == ext.recipient && ext.extAmount < 0 then -ext.extAmount else 0)
             + (if a == ext.relayer then ext.fee else 0)
             - (if a == sender && ext.extAmount > 0 then ext.extAmount else 0)
             + (if a == host.self then Signed(ext) else 0)
  {
    hide IsKnown, Pay, Canonical, CalcPublicAmount, PublicInputs, Pow2;
    PayMoves(host, s.balances, ext, sender, a);
  }

  lemma AcceptedCommits(host: Host, s: State, proof: TxProof, ext: ExtData, sender: Address, authorized: bool)
    requires Transact(host, s, proof, ext, sender, authorized).1.Ok?
    ensures 2 <= |proof.outputCommitments| && InI128(s.tvl + Signed(ext)) && !s.locked
    ensures var s' := Transact(host, s, proof, ext, sender, authorized).0;
      s' == Commit(s, proof, ext).(balances := s'.balances)
  {
    hide IsKnown, Pay, Commit, Canonical, CalcPublicAmount, PublicInputs, Pow2;
  }

  lemma CommitIs(s: State, proof: TxProof, ext: ExtData)
    requires InI128(s.tvl + Signed(ext)) && 2 <= |proof.outputCommitments|
    ensures var s' := Commit(s, proof, ext);
      var n, announced := |s.leaves|, |s.events| + |proof.inputNullifiers|;
      && s'.tvl == s.tvl + Signed(ext)
      && s'.config == s.config && s'.paused == s.paused && s'.locked == s.locked
      && (forall x :: x in s'.spent <==> x in s.spent || x in proof.inputNullifiers)
      && s'.leaves == s.leaves + [proof.outputCommitments[0], proof.outputCommitments[1]]
      && s.events <= s'.events && |s'.events| == announced + 2
      && (forall k :: 0 <= k < |proof.inputNullifiers| ==>
            s'.events[|s.events| + k] == NewNullifier(proof.inputNullifiers[k]))
      && s'.events[announced] == NewCommitment(n, proof.outputCommitments[0], ext.encryptedOutput0)
      && s'.events[announced + 1] == NewCommitment(n + 1, proof.outputCommitments[1], ext.encryptedOutput1)
  {
  }

  /** All else an accepted call changes: the TVL by the signed amount, the nullifiers it lists become spent, its
      first two commitments become leaves, and the events announce both in this order. */
  lemma CallEffect(host: Host, s: State, proof: TxProof, ext: ExtData, sender: Address, authorized: bool)
    requires Transact(host, s, proof, ext, sender, authorized).1.Ok?
    ensures 2 <= |proof.outputCommitments|
    ensures var s' := Transact(host, s, proof, ext, sender, authorized).0;
      var n, announced := |s.leaves|, |s.events| + |proof.inputNullifiers|;
      && s'.tvl == s.tvl + Signed(ext)
      && s'.config == s.config && s'.paused == s.paused && !s'.locked
      && (forall x :: x in s'.spent <==> x in s.spent || x in proof.inputNullifiers)
      && s'.leaves == s.leaves + [proof.outputCommitments[0], proof.outputCommitments[1]]
      && s.events <= s'.events && |s'.events| == announced + 2
      && (forall k :: 0 <= k < |proof.inputNullifiers| ==>
            s'.events[|s.events| + k] == NewNullifier(proof.inputNullifiers[k]))
      && s'.events[announced] == NewCommitment(n, proof.outputCommitments[0], ext.encryptedOutput0)
      && s'.events[announced + 1] == NewCommitment(n + 1, proof.outputCommitments[1], ext.encryptedOutput1)
  {
    hide Transact, Commit, NullifierEvents;
    AcceptedCommits(host, s, proof, ext, sender, authorized);
    CommitIs(s, proof, ext);
  }

  /** A balance after one transfer. */
  function Moved(b: Balances, from: Address, to: Address, amount: int, a: Address): int {
    BalanceOf(b, a) - (if a == from then amount else 0) + (if a == to then amount else 0)
  }

  /** A transfer needs cover in the paying account, an account that can hold the token, and room in it. */
  predicate CanMove(host: Host, cover: int, held: int, from: Address, to: Address, amount: int) {
    && 0 <= amount <= cover && host.holds(to)
    && InI128(if from == to then held else held + amount)
  }

  /** Exactly when a withdrawal or deposit can be paid, and then the fee out of what that leaves. */
  lemma PaySucceedsIff(host: Host, b: Balances, ext: ExtData, sender: Address)
    requires I128_MIN < ext.extAmount && 0 <= ext.fee
    ensures var from := if ext.extAmount > 0 then sender else host.self;
      var to := if ext.extAmount > 0 then host.self else ext.recipient;
      var amount := if ext.extAmount > 0 then ext.extAmount else -ext.extAmount;
      Pay(host, b, ext, sender).Some? <==>
        && (amount != 0 ==> CanMove(host, BalanceOf(b, from), BalanceOf(b, to), from, to, amount))
        && (ext.fee != 0 ==>
              CanMove(host, Moved(b, from, to, amount, host.self), Moved(b, from, to, amount, ext.relayer), host.self,
                      ext.relayer, ext.fee))
  {
    hide BalanceOf, Transfer, CanMove;
    var from := if ext.extAmount > 0 then sender else host.self;
    var to := if ext.extAmount > 0 then host.self else ext.recipient;
    var amount := if ext.extAmount > 0 then ext.extAmount else -ext.extAmount;
    if amount != 0 {
      TransferIff(host, b, from, to, amount);
      if Transfer(host, b, from, to, amount).Some? {
        var mid := Transfer(host, b, from, to, amount).value;
        TransferMoves(host, b, from, to, amount);
        TransferIff(host, mid, host.self, ext.relayer, ext.fee);
        assert BalanceOf(mid, host.self) == Moved(b, from, to, amount, host.self);
        assert BalanceOf(mid, ext.relayer) == Moved(b, from, to, amount, ext.relayer);
      }
    } else {
      TransferIff(host, b, host.self, ext.relayer, ext.fee);
    }
  }

  lemma TransferIff(host: Host, b: Balances, from: Address, to: Address, amount: int)
    requires InI128(amount)
    ensures Transfer(host, b, from, to, amount).Some? <==>
            CanMove(host, BalanceOf(b, from), BalanceOf(b, to), from, to, amount)
  {
  }

  /** A call the vault takes up: authorized, no call running, not paused, set up, and with values in range. */
  predicate TakenUp(s: State, proof: TxProof, ext: ExtData, authorized: bool) {
    && authorized && !s.locked && !s.paused && s.config.Some?
    && 0 <= ext.fee && InI128(Signed(ext))
    && AllCanonical(proof)
  }

  predicate AllCanonical(proof: TxProof) {
    && Canonical(proof.root) && Canonical(proof.publicAmount) && Canonical(proof.extDataHash)
    && (forall n :: n in proof.inputNullifiers ==> Canonical(n))
    && (forall c :: c in proof.outputCommitments ==> Canonical(c))
  }

  /** The amount keeps the limits and the tree has room. */
  predicate WithinLimits(s: State, ext: ExtData)
    requires s.config.Some?
  {
    && ext.extAmount <= s.config.value.maxDeposit
    && InI128(s.tvl + Signed(ext)) && 0 <= s.tvl + Signed(ext) <= s.config.value.tvlCap
    && |s.leaves| + 2 <= Pow2(DEPTH)
  }

  /** Why a call is not taken up: each refusal names the first condition that fails. */
  lemma RefusedAtOnceIff(host: Host, s: State, proof: TxProof, ext: ExtData, sender: Address, authorized: bool)
    requires !TakenUp(s, proof, ext, authorized)
    ensures var o := Transact(host, s, proof, ext, sender, authorized).1;
      && (o == Err(HostTrap) <==> !authorized)
      && (o == Err(Reentrancy) <==> authorized && s.locked)
      && (o == Err(Paused) <==> authorized && !s.locked && s.paused)
      && (o == Err(NotInitialized) <==> authorized && !s.locked && !s.paused && s.config.None?)
      && (o == Err(BadExtData) <==> authorized && !s.locked && !s.paused && s.config.Some?
                                    && !(0 <= ext.fee && InI128(Signed(ext))))
      && (o == Err(NonCanonicalInput) <==> authorized && !s.locked && !s.paused && s.config.Some?
                                           && 0 <= ext.fee && InI128(Signed(ext)))
  {
    hide Canonical, Attempt, IsKnown, CalcPublicAmount, PublicInputs, Pow2;
  }

  /** Why a call that was taken up fails at a limit. */
  lemma RefusedAtLimitIff(host: Host, s: State, proof: TxProof, ext: ExtData, sender: Address)
    requires TakenUp(s, proof, ext, true) && !WithinLimits(s, ext)
    ensures var o, tvl := Transact(host, s, proof, ext, sender, true).1, s.tvl + Signed(ext);
      var small := ext.extAmount <= s.config.value.maxDeposit;
      && (o == Err(DepositTooLarge) <==> !small || (InI128(tvl) && s.config.value.tvlCap < tvl && 0 <= tvl))
      && (o == Err(BadExtData) <==> small && (!InI128(tvl) || tvl < 0))
      && (o == Err(TreeFull) <==> small && InI128(tvl) && 0 <= tvl <= s.config.value.tvlCap)
  {
    hide Canonical, Attempt, IsKnown, CalcPublicAmount, PublicInputs, Pow2;
  }

  /** Why a call within the limits fails. */
  lemma RefusedAtProofIff(host: Host, s: State, proof: TxProof, ext: ExtData, sender: Address)
    requires TakenUp(s, proof, ext, true) && WithinLimits(s, ext)
    ensures var o := Transact(host, s, proof, ext, sender, true).1;
      var rooted := IsKnown(host, s.leaves, proof.root);
      var unspent := rooted && forall n :: n in proof.inputNullifiers ==> n !in s.spent;
      var hashed := unspent && host.hashExtData(ext) == proof.extDataHash;
      var stated := hashed && CalcPublicAmount(Signed(ext)) == proof.publicAmount;
      var proved := stated && Verified(host, proof.points, PublicInputs(proof, s.config.value.domain));
      var listed := proved && 2 <= |proof.outputCommitments| && I128_MIN < ext.extAmount;
      && (o == Err(UnknownRoot) <==> !rooted)
      && (o == Err(SpentNullifier) <==> rooted && !unspent)
      && (o == Err(WrongExtHash) <==> unspent && !hashed)
      && (o == Err(WrongPublicAmount) <==> hashed && !stated)
      && (o == Err(InvalidProof) <==> stated && !proved)
      && (o == Err(BadExtData) <==> proved && !listed)
      && (o == Err(HostTrap) <==> listed && Pay(host, s.balances, ext, sender).None?)
  {
    hide IsKnown, Pay, Canonical, CalcPublicAmount, PublicInputs, Pow2, Verified, NullifierEvents;
  }

  /** Payouts never fail for lack of funds: as long as the vault is covered and the new TVL is not
      negative, every transfer out of the vault in an accepted call is covered when it is made. It
      can only be refused because the payee cannot hold the amount. The withdrawn amount is never
      the one i128 that cannot be negated. */
  lemma PayoutsAreCovered(host: Host, s: State, ext: ExtData, sender: Address)
    requires Covered(host, s) && 0 <= ext.fee && 0 <= s.tvl + Signed(ext)
    ensures I128_MIN < ext.extAmount
    ensures ext.extAmount < 0 ==> -ext.extAmount <= BalanceOf(s.balances, host.self)
    ensures ext.extAmount == 0 ==> ext.fee <= BalanceOf(s.balances, host.self)
    ensures ext.extAmount < 0 && Transfer(host, s.balances, host.self, ext.recipient, -ext.extAmount).Some? ==>
              ext.fee <= BalanceOf(Transfer(host, s.balances, host.self, ext.recipient, -ext.extAmount).value,
                                   host.self)
    ensures ext.extAmount > 0 && sender != host.self
            && Transfer(host, s.balances, sender, host.self, ext.extAmount).Some? ==>
              ext.fee <= BalanceOf(Transfer(host, s.balances, sender, host.self, ext.extAmount).value, host.self)
  {
  }

  /** An accepted call keeps the vault covered; the surplus over the TVL never shrinks, and is
      unchanged when no payout names the vault itself. */
  lemma PayKeepsCover(host: Host, b: Balances, ext: ExtData, sender: Address)
    requires I128_MIN < ext.extAmount && 0 <= ext.fee
    requires Pay(host, b, ext, sender).Some?
    requires sender != host.self
    ensures BalanceOf(Pay(host, b, ext, sender).value, host.self) >= BalanceOf(b, host.self) + Signed(ext)
    ensures ext.recipient != host.self && ext.relayer != host.self ==>
              BalanceOf(Pay(host, b, ext, sender).value, host.self) == BalanceOf(b, host.self) + Signed(ext)
  {
  }
}
