# Shielded pool: a verified model

The repository is a shielded payment pool. A vault contract keeps tokens, an append-only Merkle tree of
note commitments and a set of spent nullifiers. A wallet builds two-in two-out transactions and proves
them in a circuit. An indexer mirrors the vault's events into tables. A relayer submits spends for a fee.
This project models those four parts and the circuit between them, and proves what they promise together.

`dafny verify dfyconfig.toml` checks everything.

## What is proved

**One tree, written three ways.** `PaddedTree` is the specification: the perfect binary tree over a finite
map of leaves, with zero for every missing leaf and an uninterpreted two-to-one hash. The vault's frontier
with its root ring (`FrontierTree`), the wallet's sparse node map (`SparseTree`) and the older flow's
layers (`LayeredTree`) all compute its root, and every path read from the last two folds to that root
(`MerklePath`). Depth and ring size are parameters. The ring holds exactly the nonzero roots of the last
`history` states, from which the lifetime of a root follows.

**Solvency.** `VaultSpec` is one call of the vault as a step on values, `VaultContract` is the contract with
its fields and its loops and proved equal to that step, and `VaultRuns` is any sequence of calls, pauses and
token movements by others. `Circuit` states the constraints of the transaction circuit itself.
`Solvency.Solvent` says that after any run whose accepted calls list two nullifiers and whose accepted proofs
have witnesses, the amounts of the notes whose nullifier has not been published add up to the TVL, and the
vault's token balance covers it. The condition on the lists is needed: the contract does not check it, and
`SolvencyWitness` has a concrete run for which the theorem fails without it, beside one that meets all its
assumptions. Hashes are not assumed injective, which no compressing function is. The theorem takes the list
of hash inputs that occur in the run and asks that no two of them collide, and that no transmission key of
the run goes with two nullifier keys.

**The self-healing indexer.** The event source may answer every call differently: any part of the true events
in any order with repetitions, an error, a retention refusal, a page that is too long. A faithful source shows all
it still has: it may leave out what lies before its oldest ledger and cut a page off at the limit. Whatever it does, the
commitments table is a prefix of the vault's leaves (`IndexerSafety`). Whatever true events were hidden before, a
later tick over a faithful source that ends without an error stores every leaf up to its safe ledger, exactly
when none was missing before its start or its range shows one; and if ledgers were shown whole or not at all, the
same goes for every event (`IndexerHealing.SelfHealing`, stated once for both scopes). A run of ticks over
faithful sources stays complete up to its cursor, whether they fail or not (`IndexerProgress.FaithfulRun`).
`IndexerBounds` says how often a tick re-anchors and when it does end without an error. `VaultEvents` derives what
these results assume of a chain from runs of the vault. The TypeScript twin reads windows in pages and re-anchors
by giving the tick up: `IndexerPaging` reduces a paged fetch to a whole one, and `IndexerTwin` proves that it heals
within one tick, or two when the first re-anchors, and that a tick over a pager that lists, progresses and decodes
ends without an error (`IndexerTwin.PagedTwinSucceeds`).

**Wallet, circuit and vault agree.** Every plan balances over the field and over the integers, its witness
satisfies the circuit, and a vault with room for it accepts it (`WalletPlans`, `WalletCompleteness`). The
nullifier a scan looks up is the one the spend publishes (`WalletScan`). Encryption round-trips
(`NoteCipher`), so an accepted transfer reaches its recipient and its change comes back
(`WalletDelivery.PaymentArrives`), and the tokens of every accepted plan go to the accounts the user meant
(`WalletDelivery.WithdrawPays`). `WalletIndex` closes the circle: after any run of the vault, what a healed
indexer serves is a contiguous list of true leaves whose root the vault knows, and a withdraw built from it is
accepted (`WalletIndex.ServedWithdrawAccepted`). `WalletWitness` has a concrete withdrawal, payment and empty
deposit that meet these assumptions. Note selection, the note store and the auto-split loop are in `NoteStore`,
the denomination split in `Denominations`, the fee in `Relayer`.

## Where the code does less than its comments or its tables suggest

Each of these is stated as a lemma about the code as it is, with the exact condition beside it where there is
one.

- The contract compares neither the number of nullifiers nor that of commitments; the verifier only fixes their
  total. An accepted call finds both nullifiers its proof is about unspent, and records both, if and only if it
  lists two; one that is not listed becomes a leaf and is neither looked up nor recorded, so it may have been
  spent before (`Solvency.NullifiersRecordedIff`). A check of the list lengths before the proof check is what the
  solvency theorem needs (`SolvencyWitness.SolvencyNeedsTwoNullifiers`).
- A commitment value that occurs twice stops the indexer for good. The vault accepts it
  (`VaultEvents.RepeatAccepted`), and the wallet can build such a plan (`VaultEvents.EqualOutputsSendable`), but
  the commitment column is unique (offchain/db/schema.sql:24) and `ON CONFLICT` names only the leaf index
  (`VaultEvents.RepeatStopsIndexer`). Distinct values are necessary for complete tables
  (`IndexerBounds.CompleteNeedsDistinct`) and, with an available source, enough
  (`IndexerBounds.HealsWhenAvailable`).
- The rewind branch of a tick of the Go indexer is bounded by five, the re-anchoring branch is not counted. While
  the visibility of leaf 0 is fixed it runs at most once (`IndexerBounds.TickReanchorsOnce`). A source that changes
  its mind between scan and walk-back keeps one tick going for as many rounds as it likes
  (`IndexerBounds.ReanchorsUnbounded`).
- Healing needs a leaf in the range of the tick: a pass that starts after a missing leaf and sees no later one
  ends without noticing. `SelfHealing` is therefore an equivalence.
- The comment on `splitAmount` (extension/src/private/denominations.ts:8-9) says that largest-first yields the
  fewest notes. That holds when the positive denominations form a divisibility chain
  (`Denominations.SplitIsFewest`) and fails for 4, 3, 1 (`Denominations.NotFewestWithoutChain`). Counts are
  reported as doubles: the pieces are worth the amount if and only if every count is one
  (`Denominations.SplitIsExact`), which `Denominations.SmallSplitIsExact` bounds beforehand and
  `Denominations.SplitNotExactAbove` shows to fail.
- The relayer computes in 64-bit integers that wrap. Its last gate admits only fees that cover the cost if and
  only if cost times rate fits (`Relayer.NeverLosesIff`); `Relayer.WrappedCostPasses` is a cost that does not.
- The wallet's contiguity guard cannot see a dropped tail (the code's own comment says so,
  extension/src/shielded/tree.ts:72-73). `SparseTree.ContiguousIsPrefix` says what then still holds.
- An auto-split chunk also reports done when no note is left (`NoteStore.DoneIsNotAllSent`). Everything is sent
  if and only if the request is within what the notes reach pair by pair (`NoteStore.DriveSends`).
- A comment in the indexer speaks of the code entry as the first anchor
  (offchain-go/internal/indexer/ingest.go:153-155); the function reads the contract instance entry. The model
  follows the function.

## Assumptions

- Hashes, curve operations, ext data hashing, the sealed box and the proof check are parameters. `Circuit.Sound`
  lists what is used of them: results are field elements, multiples of the base point are on the curve
  and compose modulo the subgroup order.
- A proof that checks for some public inputs comes with a witness that satisfies the circuit for them
  (`Solvency.Extracted`). The verification key has nine points, so a checked proof has eight public inputs.
- Besides hash collisions, a run's transcript is assumed to show no transmission key with two nullifier keys
  (the `owners` clause of `Solvency.NoCollision`). That is a coincidence in a product modulo the subgroup
  order, not a hash collision.
- The host rolls back every write of a call that returns an error or traps, the lock included.
- The token moves exactly the amount, refuses an uncovered or overflowing transfer, and may refuse a
  receiver; it does not call back into the vault.
- The vault does not authorize calls, and nobody else spends from its account.
- The indexer's database commits a transaction whole or not at all. Events of one leaf index are equal, so
  the order an unstable sort gives them does not matter.
- In the auto-split loop the fee is constant, submissions succeed, no notes arrive between chunks, and change
  notes have commitments that are not in the store yet.

## Model

| member | source | states |
|---|---|---|
| FrontierTree.Tree.constructor | contracts/vault/src/merkle.rs:31-53 | the zero table, frontier and ring of a new tree satisfy the tree invariant for the empty leaf list |
| FrontierTree.Tree.Insert | contracts/vault/src/merkle.rs:56-87 | for every leaf list, keeping one hash per level and one ring suffices: the returned root is the padded tree's root over all leaves so far, and frontier and ring again describe that list |
| FrontierTree.Tree.IsFull | contracts/vault/src/merkle.rs:105-112 | true exactly when fewer than two leaves remain below 2^depth |
| FrontierTree.Tree.CurrentRoot | contracts/vault/src/merkle.rs:114-121 | the root after the last insert |
| FrontierTree.Tree.IsKnownRoot | contracts/vault/src/merkle.rs:124-135 | true exactly for the nonzero roots of the last `history` states |
| FrontierTree.RootAfterIsRoot | contracts/vault/src/merkle.rs:56-87 | as long as at most 2^depth leaves went in, the recorded root is the padded tree's root |
| FrontierTree.LeftIsFrontier | contracts/vault/src/merkle.rs:69-72 | where the new leaf's path turns left, the frontier already holds the left sibling of the new tree |
| FrontierTree.RightIsEmpty | contracts/vault/src/merkle.rs:65-68 | to the right of the newest leaf's path every node is the zero of its level |
| FrontierTree.RingPush | contracts/vault/src/merkle.rs:76-83 | writing the next slot keeps every other slot at the root one insert older |
| FrontierTree.RingIsKnownRoots | contracts/vault/src/merkle.rs:124-135 | a nonzero value is in the ring if and only if it is the root of one of the last `history` states |
| FrontierTree.KnownRootSurvives | contracts/vault/src/merkle.rs:76-84 | a nonzero root stays known while fewer than `history` leaves follow it |
| FrontierTree.RootLifetime | contracts/vault/src/lib.rs:245-248 | with a ring of 64 the current root outlives 31 further accepted calls, and from the 32nd on is known only if a later root equals it |
| FrontierTree.PrefixRootsDiffer | contracts/vault/src/merkle.rs:56-87 | without collisions, trees over two different prefixes of nonzero leaves have different roots |
| FrontierTree.PrefixKnownIff | contracts/vault/src/merkle.rs:124-135 | without collisions and zero leaves a nonzero root is known if and only if fewer than `history` leaves followed it |
| SparseTree.Zeros | extension/src/shielded/tree.ts:113 | the zero hashes of the levels below the root |
| SparseTree.PutLeaf | extension/src/shielded/tree.ts:118-127 | storing one leaf and rehashing its path makes the whole node map right again for the extended leaf assignment |
| SparseTree.BuildTree | extension/src/shielded/tree.ts:112-130 | whatever the order of the commitments, every lookup gives the padded tree's node and the root is its root |
| SparseTree.PathOf | extension/src/shielded/tree.ts:138-149 | the elements are the leaf's siblings, the packed bits are the leaf index, and the fold of the stored leaf gives the root |
| SparseTree.SpendPaths | extension/src/shielded/tree.ts:159-162 | every path verifies against one shared root |
| SparseTree.ContiguousFromZero | extension/src/shielded/tree.ts:99-109 | accepts exactly the lists whose indices run 0, 1, 2, ... |
| SparseTree.AssignedGenuine | extension/src/shielded/tree.ts:117-128 | genuine entries in any order and number assign exactly the mentioned leaves their true values |
| SparseTree.SparseRootIsVaultRoot | extension/src/shielded/tree.ts:112-130 | over all emitted leaves, in any order, the wallet's root is the root the vault's frontier computed |
| SparseTree.ContiguousIsPrefix | extension/src/shielded/tree.ts:88-96 | what passes the guard is a prefix of the vault's leaves, and its root is still accepted when fewer than `history` leaves are missing |
| SparseTree.ContiguousKnownIff | extension/src/shielded/tree.ts:88-96 | without collisions and zero leaves, a list that passes the guard has a root the vault knows if and only if fewer than `history` leaves are missing |
| LayeredTree.ZeroHashes | extension/src/private/merkle.ts:12-18 | the zero hash of every level up to the root |
| LayeredTree.HashLayer | extension/src/private/merkle.ts:34-40 | pairing a layer, with the level's zero for a missing right node, gives the next layer of the padded tree |
| LayeredTree.BuildMerklePath | extension/src/private/merkle.ts:21-44 | refuses exactly the indices outside the list; otherwise root, siblings and bits are the padded tree's, the leaf folds to the root, and up to 2^levels leaves the root is the vault's |
| MerklePath.PathFolds | circuits/lib/merkleProof.circom:23-36 | a leaf folded with its siblings gives the node at the top of its path, level by level |
| MerklePath.PathFoldsToRoot | circuits/lib/merkleProof.circom:8-37 | a leaf of the tree folded with its path gives the root |
| MerklePath.FoldBinds | circuits/lib/merkleProof.circom:23-36 | if no two hashed pairs collide, a fold that reaches a node of the tree started from the tree's leaf at that index |
| MerklePath.FoldBindsToRoot | circuits/lib/merkleProof.circom:8-37 | without collisions, whatever folds to the root is the tree's leaf at that index |
| Field.CalcPublicAmount | contracts/vault/src/tx.rs:33-40 | the result is canonical and congruent to the signed amount |
| Field.PublicAmountInjective | contracts/vault/src/tx.rs:33-40 | two signed amounts have the same public amount only if they are equal |
| Field.BalancePinsInteger | contracts/vault/src/tx.rs:30-40 | with sums below 2B and 2B + 2^127 <= p, the balance equation mod p holds if and only if it holds over the integers |
| Field.TransactionBalance | circuits/src/transaction.circom:133-182 | with 248-bit amounts the circuit's balance constraint is the integer equation |
| Field.ReduceGateIsMod | circuits/lib/keypair.circom:38-67 | the reduction gadget has exactly one witness, the true quotient and remainder |
| Field.ReduceNeedsBound | circuits/lib/keypair.circom:58-66 | without the bound at quotient 7, zero would have a second reduction |
| Circuit.InputPkDIsPkD | circuits/src/transaction.circom:77-104 | a satisfied input slot derives the same transmission key as the wallet, although it multiplies twice and reduces by witness |
| Circuit.InputComplete | circuits/src/transaction.circom:55-137 | the wallet's witness passes the input constraints exactly when keys and amount are in range and a nonzero amount's path leads to the root |
| VaultSpec.AcceptedIff | contracts/vault/src/lib.rs:153-276 | a call succeeds if and only if all of its conditions hold, stated without their order |
| VaultSpec.CallEffect | contracts/vault/src/lib.rs:239-260 | an accepted call adds the signed amount to the TVL, makes the nullifiers it lists spent and its first two commitments leaves, announces both in this order, and changes nothing else but balances |
| VaultSpec.AcceptedMoves | contracts/vault/src/lib.rs:262-272 | who gets the money in an accepted call: the recipient what is withdrawn, the relayer the fee, both from the vault, the vault a deposit from the sender; accounts may coincide, and no other balance changes |
| VaultSpec.PaySucceedsIff | contracts/vault/src/lib.rs:262-272 | the payments of a call go through if and only if the deposit or withdrawal is covered and fits, and then the fee out of what that leaves |
| VaultSpec.RefusedAtOnceIff | contracts/vault/src/lib.rs:154-194 | a call that is not taken up is refused with the error of the first condition that fails: authorization, lock, pause, configuration, ext data, canonicality |
| VaultSpec.RefusedAtLimitIff | contracts/vault/src/lib.rs:195-216 | a call that breaks a limit is refused with the error of the first one: deposit size, TVL range, cap, tree capacity |
| VaultSpec.RefusedAtProofIff | contracts/vault/src/lib.rs:215-272 | a call within the limits is refused with the error of the first condition that fails: root, nullifiers, ext hash, public amount, proof, lists, payment |
| VaultSpec.TransferMoves | contracts/vault/src/lib.rs:263-272 | a transfer conserves tokens between its two accounts and touches no other |
| VaultSpec.PayoutsAreCovered | contracts/vault/src/lib.rs:262-272 | in a covered vault every payout and fee is covered when it is made, and the negation of the withdrawn amount never overflows |
| VaultSpec.PayKeepsCover | contracts/vault/src/lib.rs:262-272 | an accepted call changes the vault's balance by at least the signed amount, and by exactly that when no payout names the vault |
| VaultContract.Vault.constructor | contracts/vault/src/lib.rs:87-88 | a contract with nothing stored |
| VaultContract.Vault.Init | contracts/vault/src/lib.rs:92-119 | the first good configuration is stored with an empty tree; anything else is refused with its error and changes nothing |
| VaultContract.Vault.MarkSpent | contracts/vault/src/nullifier.rs:26-36 | adds the nullifier, and reports whether it was new |
| VaultContract.Vault.AllCanonical | contracts/vault/src/lib.rs:187-196 | true exactly when every value is below the modulus |
| VaultContract.Vault.AnySpent | contracts/vault/src/lib.rs:218-222 | true exactly when one of the values is in the spent set |
| VaultContract.Vault.SpendAll | contracts/vault/src/lib.rs:241-244 | all input nullifiers are spent and published in order |
| VaultContract.Vault.PublicInputVector | contracts/vault/src/tx.rs:52-65 | the values handed to the proof check, as field elements in the specified order |
| VaultContract.Vault.Check | contracts/vault/src/lib.rs:163-237 | the checks before any write give the first failing error of the specification, or none |
| VaultContract.Vault.InsertTwo | contracts/vault/src/lib.rs:245-248 | the two commitments become the next two leaves |
| VaultContract.Vault.Record | contracts/vault/src/lib.rs:239-260 | TVL, nullifiers, leaves and events after the writes of an accepted call |
| VaultContract.Vault.MoveFunds | contracts/vault/src/lib.rs:262-272 | deposit or withdrawal and then the fee, with success and balances as specified, and for every account the exact change of its balance |
| VaultContract.Vault.Apply | contracts/vault/src/lib.rs:239-275 | writes and transfers after the checks: outcome in every case, and the new state on success |
| VaultContract.Vault.Attempt | contracts/vault/src/lib.rs:156-275 | under the lock a successful call is kept whole and a failed one leaves the state as it was, lock included |
| VaultContract.Vault.Transact | contracts/vault/src/lib.rs:153-276 | one invocation of the contract is one step of the specification, in outcome and state, and on success changes every balance by exactly what the call gives that account |
| VaultContract.Vault.CurrentRoot | contracts/vault/src/merkle.rs:114-121 | the root after the vault's last insert |
| VaultContract.Vault.IsKnownRoot | contracts/vault/src/merkle.rs:124-135 | true exactly for roots known to the specification |
| VaultRuns.StepKeepsCustody | contracts/vault/src/lib.rs:198-211 | every step keeps 0 <= TVL <= cap and TVL <= balance, and never lowers the surplus |
| VaultRuns.Custody | contracts/vault/src/lib.rs:198-211 | over every run the TVL stays within [0, cap] and the balance covers it; the surplus is exactly the starting balance when nobody pays the vault except by deposit |
| VaultRuns.AcceptedEffect | contracts/vault/src/lib.rs:239-260 | an accepted call had only fresh nullifiers and room for two leaves, and left the committed state |
| VaultRuns.Grows | contracts/vault/src/merkle.rs:56-87 | along every run leaves, spent nullifiers and events are only added |
| VaultRuns.SpendOnce | contracts/vault/src/lib.rs:218-244 | no two accepted calls of a run share a nullifier |
| VaultRuns.SpentIsForever | contracts/vault/src/nullifier.rs:19-36 | a call naming a spent nullifier is refused at any later time, whatever else it says |
| VaultRuns.CommitAnnounces | contracts/vault/src/lib.rs:247-260 | the events of a call announce exactly its two leaves at their positions |
| VaultRuns.CapacityAndEvents | contracts/vault/src/merkle.rs:105-112 | over every run the leaf count is twice the number of accepted calls and at most 2^20, and the commitment events list the leaves, each once and with its own index |
| Solvency.InputIsLeaf | circuits/src/transaction.circom:106-131 | a nonzero input accepted under any known root is the leaf its path points at in the present tree |
| Solvency.CircuitBalances | circuits/src/transaction.circom:133-182 | a satisfied circuit with the vault's public amount balances over the integers |
| Solvency.CircuitGivesJoinSplit | circuits/src/transaction.circom:14-187 | a satisfied circuit under a known root is a join-split of leaves of the tree with bound, different nullifiers |
| Solvency.ReuseRepeatsNullifier | circuits/src/transaction.circom:112-118 | using a consumed leaf again would publish the same nullifier again |
| Solvency.UseInputKeeps | contracts/vault/src/lib.rs:218-244 | an input with a fresh nullifier takes exactly its amount out of the unspent sum |
| Solvency.JoinSplitKeepsBook | contracts/vault/src/lib.rs:204-260 | an accepted join-split moves the unspent sum by exactly the signed public amount |
| Solvency.CanonicalUnchanged | contracts/vault/src/tx.rs:50-65 | canonical values reach the proof check unchanged and in the order listed, however many there are |
| Solvency.AcceptedSignals | contracts/vault/src/lib.rs:179-237 | an accepted call was checked for exactly the values it lists, together four nullifiers and commitments, at least two of them commitments |
| Solvency.AcceptedIsProved | contracts/vault/src/lib.rs:179-237 | because of the canonicality checks and the proof check, the witness behind an accepted call satisfies the circuit for the very values the vault compares and stores |
| Solvency.NullifiersRecordedIff | contracts/vault/src/lib.rs:239-248 | an accepted call finds both nullifiers its proof is about unspent and records both if and only if it lists two; with one listed only that one is recorded and the other becomes a leaf, with none both do |
| Solvency.StepKeepsInv | contracts/vault/src/lib.rs:153-276 | every step keeps: the unspent notes of the book add up to the TVL |
| Solvency.RunKeepsInv | contracts/vault/src/lib.rs:153-276 | the same over every run |
| Solvency.ConsumedIsNullified | circuits/src/transaction.circom:112-118 | the leaves the book counts as consumed are exactly those with a published nullifier of their owner |
| Solvency.InvGivesSum | contracts/vault/src/lib.rs:198-206 | for the listed openings of the leaves, the amounts not nullified add up to the TVL |
| Solvency.Solvent | contracts/vault/src/lib.rs:198-260 | after every run from a fresh vault whose accepted calls list two nullifiers, the leaves have openings, the amounts of the notes not nullified add up to the TVL, and the token balance covers it |
| SolvencyWitness.BackedRunIsPossible | contracts/vault/src/lib.rs:153-276 | the assumptions of that theorem are met by a concrete run that accepts a deposit |
| SolvencyWitness.SolvencyNeedsTwoNullifiers | contracts/vault/src/lib.rs:241-248 | a concrete run that meets all of them, except that its second accepted call lists one nullifier, ends with TVL 0 and a note worth 1 not nullified |
| IndexerDb.SortedPermutes | offchain-go/internal/indexer/db.go:114 | sorting a batch keeps every occurrence |
| IndexerDb.Db.NextLeafIndex | offchain-go/internal/indexer/db.go:31-35 | one more than the largest stored index, or zero |
| IndexerDb.Db.ApplyBatch | offchain-go/internal/indexer/db.go:104-164 | one batch is applied whole, with the cursor moved, or not at all, with the reported index of the first gap |
| IndexerSafety.AbsorbGenuine | offchain-go/internal/indexer/db.go:127-142 | over true commitments the insert loop extends the prefix, or stops at the first missing or repeated leaf |
| IndexerSafety.BatchGenuine | offchain-go/internal/indexer/db.go:104-164 | a batch of true events keeps the tables a prefix; applied it stores every event; a gap names a missing leaf that the batch skipped |
| IndexerSafety.BatchKeepsClosed | offchain-go/internal/indexer/db.go:143-163 | batches of whole units keep everything that shares a unit with a stored leaf stored |
| IndexerSafety.PrefixSafety | offchain-go/internal/indexer/db.go:104-164 | after any sequence of batches of true events and crashes the commitments table is exactly a prefix of the leaves, and with whole units the tables are closed under them |
| IndexerSafety.StoredLeafHasNullifiers | offchain-go/internal/indexer/db.go:143-163 | with whole transactions delivered, every stored leaf's transaction has its nullifiers stored |
| IndexerSafety.DuplicateStopsTable | offchain/db/schema.sql:22-29 | no run of the indexer ever stores the leaf that repeats an earlier commitment value |
| VaultEvents.CommitRecords | contracts/vault/src/lib.rs:239-260 | one accepted call extends the recorded history by its two leaves and its nullifiers, and publishes exactly those |
| VaultEvents.RunGivesChain | contracts/vault/src/lib.rs:239-260 | any run from a fresh vault, in ledger order, leaves a valid chain whose rows are the vault's leaves and nullifiers and whose genuine events are those it published |
| VaultEvents.RepeatAccepted | contracts/vault/src/lib.rs:212-260 | the vault accepts a sendable plan with two equal outputs, and the last two leaves are then equal |
| VaultEvents.EqualOutputsSendable | extension/src/shielded/vault.ts:161-179 | an empty deposit whose two blindings are equal is a sendable plan with two equal outputs |
| VaultEvents.RepeatStopsIndexer | offchain/db/schema.sql:22-29 | after such a call no delivery of true events gets the indexer past the second copy |
| Indexer.Node.DecodePage | offchain-go/internal/indexer/ingest.go:88-101 | drops events after the window and of other kinds, fails on one that does not decode |
| Indexer.Node.Fetch | offchain-go/internal/indexer/ingest.go:68-102 | one call of the source with its error cases, the page limit included |
| Indexer.Node.FindLeafZero | offchain-go/internal/indexer/ingest.go:143-147 | ledger of the first event for leaf 0 |
| Indexer.Node.WalkBackFrom | offchain-go/internal/indexer/ingest.go:135-151 | windowed search for leaf 0 from the retention bound |
| Indexer.Node.Ingest | offchain-go/internal/indexer/ingest.go:165-187 | one pass of windows, stopping at the first error or gap, with tables and calls used |
| Indexer.Node.EnsureAnchor | offchain-go/internal/indexer/ingest.go:189-205 | the stored deploy ledger, or one discovered and stored now |
| Indexer.Node.Passes | offchain-go/internal/indexer/ingest.go:233-270 | the tick's loop of passes, rewinds and re-anchors, equal to its specification in tables, calls and error |
| Indexer.Node.RunTick | offchain-go/internal/indexer/ingest.go:189-271 | one tick, equal to its specification in tables, calls and error |
| IndexerHealing.FetchFaithful | offchain-go/internal/indexer/ingest.go:68-102 | over a faithful source, one that may clamp to its oldest ledger and cut pages at the limit, a window fetched from the oldest ledger on contains every true event of it |
| IndexerHealing.DecodeContents | offchain-go/internal/indexer/ingest.go:88-101 | a page decodes unless something of the window in it does not, and then gives exactly the known events of the window |
| IndexerHealing.WalkBackTruthful | offchain-go/internal/indexer/ingest.go:135-151 | a successful walk-back returns the ledger of leaf 0 |
| IndexerHealing.PassKeeps | offchain-go/internal/indexer/ingest.go:165-187 | whatever part of the truth is shown, a pass keeps the tables right and never loses a leaf |
| IndexerHealing.NoSkippedRescan | offchain-go/internal/indexer/ingest.go:246-268 | after a gap the next pass starts no later than the ledger of the first leaf missing from the table, rolled back or not |
| IndexerHealing.AfterGap | offchain-go/internal/indexer/ingest.go:246-268 | after a gap the loop is ready for its next pass, rewound or re-anchored |
| IndexerHealing.RescanKeeps | offchain-go/internal/indexer/ingest.go:233-269 | over any truthful source the loop keeps the tables right and rewinds at most the configured number of times |
| IndexerHealing.TickKeeps | offchain-go/internal/indexer/ingest.go:189-271 | the same for a tick, from any database a tick can leave |
| IndexerHealing.PassKeepsClosed | offchain-go/internal/indexer/ingest.go:165-187 | if ledgers are shown whole or not at all, a pass keeps stored ledgers complete |
| IndexerHealing.TickKeepsClosed | offchain-go/internal/indexer/ingest.go:189-271 | the same for a tick |
| IndexerHealing.CleanPass | offchain-go/internal/indexer/ingest.go:165-187 | a faithful pass with nothing in scope missing before it sees no gap and, if it ends, stores everything in scope |
| IndexerHealing.LatePass | offchain-go/internal/indexer/ingest.go:165-187 | a faithful pass that starts after a missing leaf changes no row and reports that leaf exactly when its range shows one |
| IndexerHealing.HealAfterGap | offchain-go/internal/indexer/ingest.go:246-268 | one rewind or re-anchor after a late pass is enough, for either scope |
| IndexerHealing.RescanHeals | offchain-go/internal/indexer/ingest.go:233-270 | over a faithful source a loop that ends without an error has stored everything in scope up to the safe ledger if and only if nothing in scope was missing before its start or its range shows a leaf, after at most one rewind or re-anchor |
| IndexerHealing.TicksKeep | offchain-go/internal/indexer/ingest.go:189-271 | after any number of ticks over truthful sources that hide events, fail or are cut off, tables and anchor are in order; if they hid whole ledgers, stored ledgers are complete |
| IndexerHealing.SelfHealing | offchain-go/internal/indexer/ingest.go:189-271 | after any history of ticks over truthful sources, a faithful tick without an error leaves every leaf up to the safe ledger stored if and only if none was missing before its start or its range shows one; and if only whole ledgers were hidden, the same for every chain event |
| IndexerBounds.NoMoreReanchors | offchain-go/internal/indexer/ingest.go:246-256 | while the visibility of leaf 0 is fixed, a loop that starts past leaf 0 never re-anchors |
| IndexerBounds.ReanchorsOnce | offchain-go/internal/indexer/ingest.go:246-256 | while the visibility of leaf 0 is fixed a loop re-anchors at most once, whatever else comes and goes |
| IndexerBounds.TickReanchorsOnce | offchain-go/internal/indexer/ingest.go:189-271 | the same for a tick, from any database a tick can leave |
| IndexerBounds.ReanchorsUnbounded | offchain-go/internal/indexer/ingest.go:246-256 | over a truthful source that shows ledgers whole or not at all but changes its answers, the first tick on an empty database re-anchors any given number of times |
| IndexerBounds.PassSucceeds | offchain-go/internal/indexer/ingest.go:165-187 | over an available source with distinct commitments a pass does not fail, within one call per ledger |
| IndexerBounds.WalkBackSucceeds | offchain-go/internal/indexer/ingest.go:135-151 | over an available faithful source the walk-back finds leaf 0 when it is in range |
| IndexerBounds.HealsWhenAvailable | offchain-go/internal/indexer/ingest.go:233-270 | over an available faithful source with distinct commitments the loop ends without an error and heals under the same condition, for either scope |
| IndexerBounds.TickSucceeds | offchain-go/internal/indexer/ingest.go:189-271 | the same for an anchored tick after any history of earlier ticks |
| IndexerBounds.CompleteNeedsDistinct | offchain/db/schema.sql:22-29 | tables complete up to a ledger prove that its commitments are distinct |
| IndexerPaging.ReadPage | offchain/indexer/src/ingest.ts:108-114 | one page: entries past the window stop the reading, known ids are skipped, the rest are decoded in order |
| IndexerPaging.FetchWindow | offchain/indexer/src/ingest.ts:89-119 | the paged fetch of one window with its error cases |
| IndexerPaging.PagesComplete | offchain/indexer/src/ingest.ts:89-119 | over a ledger-ordered listing read in stretches, however they overlap, a fetch that succeeds returns exactly the known events of the window, each once and in order, and nothing of the window failed to decode |
| IndexerPaging.PagesOldest | offchain/indexer/src/ingest.ts:89-119 | the oldest ledger of a fetch is the one named by the page that ended it |
| IndexerPaging.PagesSucceed | offchain/indexer/src/ingest.ts:89-119 | over a listing that decodes, pages that make progress complete the fetch, in at most one page per entry and one more |
| IndexerPaging.PagedFetchIsFetch | offchain/indexer/src/ingest.ts:89-119 | a paged fetch is one unlimited whole fetch, so every result about whole windows applies |
| IndexerPaging.PagerTruthful | offchain/indexer/src/ingest.ts:89-119 | from pages of true events only true events are fetched |
| IndexerPaging.PagerFaithful | offchain/indexer/src/ingest.ts:89-119 | from listings that show everything still retained when the last page was given, every window fetched holds every true event of it from the oldest ledger on |
| IndexerPaging.PagerAvailable | offchain/indexer/src/ingest.ts:89-119 | a pager that lists every window in pages that make progress and decode, within its page budget and retention, answers every window |
| IndexerTwin.TwinNode.Window | offchain/indexer/src/ingest.ts:89-119 | one window read by the process, as the adapted source answers it |
| IndexerTwin.TwinNode.WalkBackOnce | offchain/indexer/src/ingest.ts:185-192 | the search for leaf 0 in one window back to the retention bound |
| IndexerTwin.TwinNode.Ingest | offchain/indexer/src/ingest.ts:212-226 | the same pass as the other indexer's, over paged windows |
| IndexerTwin.TwinNode.Passes | offchain/indexer/src/ingest.ts:253-270 | the loop of passes and bounded rewinds, left at a gap at leaf 0 |
| IndexerTwin.TwinNode.EnsureAnchor | offchain/indexer/src/ingest.ts:231-237 | the stored deploy ledger, or one discovered and stored now |
| IndexerTwin.TwinNode.RediscoverDeploy | offchain/indexer/src/ingest.ts:274-288 | the walk-back after a gap at leaf 0 |
| IndexerTwin.TwinNode.RunTick | offchain/indexer/src/ingest.ts:228-306 | one round of the loop, equal to its specification in tables, calls and error |
| IndexerTwin.ScanKeeps | offchain/indexer/src/ingest.ts:253-270 | the loop keeps the tables right over any truthful source and stops at leaf 0 only with an empty table |
| IndexerTwin.RediscoverKeeps | offchain/indexer/src/ingest.ts:195-209 | a re-discovered deploy ledger is the ledger of leaf 0 |
| IndexerTwin.TwinKeeps | offchain/indexer/src/ingest.ts:228-306 | a tick keeps the tables right and rewinds a bounded number of times, whatever the source shows; a tick whose flag records the walk-back after its loop leaves an empty table anchored at leaf 0 |
| IndexerTwin.TwinKeepsClosed | offchain/indexer/src/ingest.ts:228-306 | if ledgers are shown whole or not at all, a tick keeps stored ledgers complete |
| IndexerTwin.ScanHeals | offchain/indexer/src/ingest.ts:253-270 | over a faithful source a completed loop has stored everything in scope if and only if nothing in scope was missing before its start or its range shows a leaf |
| IndexerTwin.TwinHeals | offchain/indexer/src/ingest.ts:228-306 | the same for a tick that did not re-anchor, for either scope |
| IndexerTwin.ReanchorHeals | offchain/indexer/src/ingest.ts:257-288 | after a tick that re-anchored, the next faithful one does not re-anchor and, without an error, has stored everything, whether or not its range shows a leaf |
| IndexerTwin.TwinTicksKeep | offchain/indexer/src/ingest.ts:228-306 | after any number of ticks, each under its own configuration, over truthful sources that hide events, fail or are cut off, tables and anchor are in order; if they hid whole ledgers, stored ledgers are complete |
| IndexerTwin.ScanSucceeds | offchain/indexer/src/ingest.ts:253-270 | over an available faithful source with distinct commitments no error stops the loop |
| IndexerTwin.TwinSucceeds | offchain/indexer/src/ingest.ts:228-306 | after any history an anchored tick over such a source ends without an error, re-anchored or healed, for either scope |
| IndexerTwin.PagedTwinSucceeds | offchain/indexer/src/ingest.ts:228-306 | the same over the pages the process reads, when they list every true event, make progress, decode and are retained |
| IndexerProgress.FetchIs | offchain-go/internal/indexer/ingest.go:68-102 | every outcome of one fetch: cancelled, failed, refused, at the page limit, undecodable, or exactly the known events of the window and the oldest ledger |
| IndexerProgress.AnchorIs | offchain-go/internal/indexer/ingest.go:189-205 | the anchor is the stored ledger, else the instance entry's, else that of leaf 0 found within retention; it is stored and nothing else changes |
| IndexerProgress.PassCalls | offchain-go/internal/indexer/ingest.go:165-187 | a pass that ends has made one call for every window of the configured size |
| IndexerProgress.TickAdvances | offchain-go/internal/indexer/ingest.go:215-270 | over a source that shows all it still has, a tick keeps the tables complete up to the cursor even when it fails half-way, and one without an error brings the cursor to the safe ledger |
| IndexerProgress.FaithfulRun | offchain-go/internal/indexer/ingest.go:189-271 | over any run of such ticks from an empty database, once a leaf is stored every event up to the cursor is, and after a tick without an error the cursor is at its safe ledger or beyond |
| IndexerProgress.TwinAdvances | offchain/indexer/src/ingest.ts:228-306 | the same for a tick of the twin |
| IndexerProgress.TwinFaithfulRun | offchain/indexer/src/ingest.ts:228-306 | the same for any run of the twin's ticks |
| IndexerProgress.TickFlag | offchain-go/internal/indexer/ingest.go:243-270 | the gap flag is down after a scan that ended well, raised by every rewind that did not help and otherwise unchanged; a loop gives up on a gap only after all its rewinds |
| IndexerProgress.TwinFlag | offchain/indexer/src/ingest.ts:266-303 | the twin raises the flag whenever a tick fails or re-anchors and lowers it after a scan that ended well |
| WalletPlans.BuildTransaction | extension/src/shielded/prover.ts:96-160 | nullifiers, commitments, public amount and ext data hash are those of the given inputs and outputs, in order |
| WalletPlans.PathUnique | extension/src/shielded/vault.ts:273-281 | the path read from the sparse tree is the only list of siblings of that leaf |
| WalletPlans.ShieldBalances | extension/src/shielded/vault.ts:161-179 | a shield plan balances over integers and field and is self-signed without fee |
| WalletPlans.WithdrawBalances | extension/src/shielded/vault.ts:182-204 | every withdraw plan balances, its change is not negative, and self-signing means no fee |
| WalletPlans.TransferBalances | extension/src/shielded/vault.ts:207-232 | every transfer plan balances with non-negative change |
| WalletPlans.WithdrawSucceedsIff | extension/src/shielded/vault.ts:182-204 | a withdraw is built if and only if it names one or two different notes, each found exactly once, under a known root, that cover amount and fee |
| WalletPlans.TransferSucceedsIff | extension/src/shielded/vault.ts:207-232 | the same for a transfer |
| WalletPlans.SpendRefusedIff | extension/src/shielded/vault.ts:269-284 | why the inputs of a spend are refused: the first condition that fails, the first note before the second |
| WalletPlans.ExceedsNotesIff | extension/src/shielded/vault.ts:182-214 | when amount and fee exceed the notes, a withdraw is refused after its inputs were found, a transfer before |
| WalletPlans.PlansHandOver | extension/src/shielded/vault.ts:200-204 | a plan hands over the commitments of its notes and at most one new note, unspent and not yet located |
| WalletCompleteness.PlanSatisfiesCircuit | extension/src/shielded/prover.ts:96-160 | the witness of a sendable plan satisfies the circuit for the published values |
| WalletCompleteness.OutputSatisfies | extension/src/shielded/prover.ts:96-160 | the wallet's witness passes an output slot exactly when the key is on the curve and the amount in range |
| WalletCompleteness.DummiesDiffer | extension/src/shielded/vault.ts:131-136 | dummies with different blindings publish different nullifiers, unless their commitments or those nullifiers collide |
| WalletCompleteness.SameSignals | contracts/vault/src/tx.rs:50-65 | what the vault hands to the proof check is what the wallet proved |
| WalletCompleteness.PublicAmountsAgree | extension/src/shielded/extdata.ts:43-46 | within 128 bits the wallet's public amount is the vault's |
| WalletCompleteness.RealInputProvable | extension/src/shielded/vault.ts:258-284 | a located note is the leaf at the index found, and its path leads to the tree's root |
| WalletCompleteness.SpendInputsProvable | extension/src/shielded/vault.ts:269-284 | both inputs of a spend, the dummy included, are provable under one root the vault knows |
| WalletCompleteness.ShieldSendable | extension/src/shielded/vault.ts:161-179 | every shield plan is sendable |
| WalletCompleteness.WithdrawSendable | extension/src/shielded/vault.ts:182-204 | every withdraw plan over genuine commitments is sendable |
| WalletCompleteness.TransferSendable | extension/src/shielded/vault.ts:207-232 | every transfer plan to a point on the curve is sendable |
| WalletCompleteness.PlanAccepted | contracts/vault/src/lib.rs:153-276 | a sendable plan with different nullifiers is accepted by any vault that has room for it |
| WalletScan.BuildScan | extension/src/shielded/vault.ts:342-386 | in the order of the rows, one note per own commitment not yet known, read from the first row that has it: what decrypts there, at its leaf index, spent exactly if the nullifier of that leaf is; none foreign, none twice, none missed |
| WalletScan.ScanAndSpendAgree | extension/src/shielded/vault.ts:366-384 | for a found note whose commitment occurs once, the nullifier checked while scanning is the one its spend publishes; one that occurs twice is refused |
| WalletScan.SpentFlagIsVaults | extension/src/shielded/vault.ts:374-383 | when the indexer reports the vault's nullifiers, a found note whose commitment occurs once is unspent if and only if the nullifier its spend publishes is not in the vault's spent set |
| NoteCipher.BeRoundTrip | extension/src/shielded/crypto.ts:10-14 | a number below 256^n survives its n-byte encoding |
| NoteCipher.SharedSecretsAgree | extension/src/shielded/crypto.ts:23-52 | the sender's and the recipient's multiplications reach the same point |
| NoteCipher.BlobSize | extension/src/shielded/crypto.ts:32-35 | every encrypted output has 147 bytes, whatever it carries |
| NoteCipher.DecryptsOwn | extension/src/shielded/crypto.ts:23-57 | what is encrypted to a wallet's key for a diversifier, that wallet decrypts to the same amount, diversifier and blinding |
| NoteCipher.DecryptsIff | extension/src/shielded/crypto.ts:40-57 | a blob decrypts to a note if and only if it starts with a packed point of the subgroup and its sealed part opens, under the key that point and the viewing key give, to the encoding of that note |
| WalletDelivery.OutputFound | extension/src/shielded/vault.ts:368-383 | an output of nonzero amount locked to a wallet's diversified key is found by that wallet's scan as the note sent |
| WalletDelivery.ShieldFound | extension/src/shielded/vault.ts:161-179 | a deposit is found again by scanning, as the note its plan stored |
| WalletDelivery.WithdrawFound | extension/src/shielded/vault.ts:182-204 | amount, fee and change make up the notes spent, and the change found by scanning is the stored one |
| WalletDelivery.TransferFound | extension/src/shielded/vault.ts:207-232 | nothing is lost, the recipient finds exactly the amount sent, and the sender finds the stored change |
| WalletDelivery.BlobsAlike | extension/src/shielded/vault.ts:169-175 | any two encrypted outputs have the same size |
| WalletDelivery.PlanBlobsAlike | extension/src/shielded/vault.ts:167-223 | the two blobs of every withdraw, transfer and deposit have the same size |
| WalletDelivery.AcceptedRows | contracts/vault/src/lib.rs:245-260 | the events of an accepted call announce its two outputs as leaves that are really there |
| WalletDelivery.PaymentArrives | extension/src/shielded/vault.ts:207-232 | once the vault accepts a transfer, its events announce a leaf that the recipient's scan recognises as the amount sent and another that the sender's recognises as the change |
| WalletDelivery.WithdrawPays | extension/src/shielded/vault.ts:182-204 | once the vault accepts a withdraw, the wallet's account has risen by the amount, the relayer's by the quoted fee, the vault's has fallen by both, and no other has changed; only an unrelayed plan is self-signed |
| WalletDelivery.TransferPays | extension/src/shielded/vault.ts:207-232 | an accepted transfer moves no tokens but the fee, from the vault to the relayer |
| WalletDelivery.ShieldPays | extension/src/shielded/vault.ts:161-179 | an accepted deposit moves its amount from the sender to the vault, without a fee |
| WalletIndex.ServedIsGenuine | offchain-go/internal/indexer/db.go:173-191 | tables that mirror a vault's history are served as a contiguous list of true leaves |
| WalletIndex.ServedTreeKnown | extension/src/shielded/tree.ts:45-66 | after any run of the vault, the list served from tables that hold all but the latest few leaves has a root the vault knows, unless it is zero |
| WalletIndex.HealedIsUpToDate | offchain-go/internal/indexer/ingest.go:189-271 | a tick that heals leaves such tables, whatever ticks over truthful sources ran before |
| WalletIndex.ServedWithdrawAccepted | extension/src/shielded/vault.ts:182-204 | after any run of the vault, a withdraw of notes found once in the served list that cover amount and fee is built, and a vault that takes such a plan accepts it |
| WalletWitness.ServedWithdrawIsPossible | extension/src/shielded/vault.ts:182-204 | the assumptions of that result are met by a concrete withdrawal after a deposit, and it is accepted |
| WalletWitness.PaymentIsPossible | extension/src/shielded/vault.ts:207-232 | a concrete payment is accepted, and meets what the delivery of payments assumes |
| WalletWitness.RepeatIsPossible | extension/src/shielded/vault.ts:161-179 | a concrete empty deposit with two equal outputs is taken by a fresh vault |
| NoteStore.AddedFresh | extension/src/background/shieldedNotes.ts:73-90 | notes with new, different commitments are all appended in order |
| NoteStore.AddedCovers | extension/src/background/shieldedNotes.ts:73-90 | every note offered is there afterwards under its commitment, and nothing is lost |
| NoteStore.AddedTwice | extension/src/background/shieldedNotes.ts:72-90 | a re-scan never adds a second copy |
| NoteStore.AddedOneMore | extension/src/background/shieldedNotes.ts:73-90 | one note more is appended unless its commitment is already there, and nothing else is ever added |
| NoteStore.SelectNotes | extension/src/background/shielded.ts:403-422 | for a positive need, notes are found if and only if it is at most the largest spendable sum; they are one or two different unspent notes that cover it, and two only if no single one does |
| NoteStore.TopTwoIsMost | extension/src/background/shieldedNotes.ts:115-122 | no one or two different unspent notes sum to more than the reported maximum |
| NoteStore.LargestFirstSum | extension/src/background/shielded.ts:411-413 | sorting keeps the total and distinctness |
| NoteStore.Store.AddShieldedNotes | extension/src/background/shieldedNotes.ts:73-90 | new commitments are appended in order, known ones skipped, and commitments stay distinct |
| NoteStore.Store.MarkShieldedSpent | extension/src/background/shieldedNotes.ts:93-107 | exactly the notes with a named commitment become spent, and nothing else of any note changes |
| NoteStore.Store.PersistPlan | extension/src/background/shielded.ts:148-151 | the change note is added and the inputs are marked |
| NoteStore.Store.ShieldedSpendChunk | extension/src/background/shielded.ts:342-400 | one successful chunk, equal to its specification in result and stored notes |
| NoteStore.ChunkPersistsPlan | extension/src/shielded/vault.ts:200-231 | the change note and spent commitments a chunk stores are those of the withdraw or transfer plan it submits |
| NoteStore.MarkPicked | extension/src/background/shieldedNotes.ts:93-107 | marking the picked notes lowers the unspent balance and count by exactly theirs |
| NoteStore.ChunkAccounting | extension/src/background/shielded.ts:367-399 | a chunk lowers the balance by exactly sent plus fee, and either completes the request or leaves no change and uses up every note it picked |
| NoteStore.DriveAccounting | extension/src/background/shielded.ts:342-400 | over the whole loop at most the request is sent, the balance drops by sent plus one fee per chunk, at most half the notes rounded up are needed as chunks, and done without running out means fully sent |
| NoteStore.KeepSorts | extension/src/background/shielded.ts:367-369 | sorting by amount and leaving notes out commute |
| NoteStore.ChunkLeaves | extension/src/background/shielded.ts:367-399 | a chunk that does not complete the request leaves exactly the sorted notes behind the pair it used |
| NoteStore.DriveSends | extension/src/background/shielded.ts:342-400 | the loop sends exactly the lesser of the request and what the sorted notes reach pair by pair, each pair less one fee, up to the first pair that does not exceed the fee; it completes if and only if the request is within that reach |
| NoteStore.DoneIsNotAllSent | extension/src/background/shielded.ts:370-372 | one note of 5 at a fee of 1 sends 4 of 10 and the loop still ends as done |
| Denominations.ComputeSplit | extension/src/private/denominations.ts:10-33 | the loop gives the specified pieces, with counts rounded to doubles or infinite, or the specified error |
| Denominations.GreedyConserves | extension/src/private/denominations.ts:16-26 | the exact counts plus the rest add up to the amount |
| Denominations.GreedyWellFormed | extension/src/private/denominations.ts:17-26 | pieces have strictly decreasing positive denominations among those offered, and positive counts |
| Denominations.GreedyIsLargestFirst | extension/src/private/denominations.ts:17-26 | for every positive denomination offered, what is paid in smaller ones together with the rest is less than it |
| Denominations.SplitRefusedIff | extension/src/private/denominations.ts:11-32 | why a split is refused: an amount that is not positive, a remainder, or a zero denomination reached with something left |
| Denominations.ExactCountIff | extension/src/private/denominations.ts:23 | a count survives the conversion exactly when it is a multiple of the unit its size is rounded to and not too large for a double |
| Denominations.RoundIsNearest | extension/src/private/denominations.ts:23 | rounding gives the nearest multiple of the unit, and of two the one with an even quotient |
| Denominations.ToNumberIs | extension/src/private/denominations.ts:23 | a count is itself below 2^53, above what rounding gives, and infinite once that reaches 2^1024 |
| Denominations.GreedyExactIff | extension/src/private/denominations.ts:17-26 | the rounded pieces of the loop are worth what the exact ones are if and only if every count is exact: rounding errors never cancel |
| Denominations.SplitIsExact | extension/src/private/denominations.ts:10-33 | for every split, the returned pieces have strictly decreasing positive denominations among those offered, and are worth the amount if and only if every exact count survives the conversion |
| Denominations.SmallSplitIsExact | extension/src/private/denominations.ts:10-33 | up to 2^53 times the smallest positive denomination every split is exact |
| Denominations.SplitNotExactAbove | extension/src/private/denominations.ts:23 | 2^53 + 1 unit notes come back one short, while 2^53 notes of two come back exactly |
| Denominations.OnlyPositivesMatter | extension/src/private/denominations.ts:17-26 | denominations that are not positive change neither pieces nor rest |
| Denominations.ChainRest | extension/src/private/denominations.ts:17-26 | on a divisibility chain the rest is the remainder by the smallest denomination |
| Denominations.ChainSplitIff | extension/src/private/denominations.ts:27-32 | on a chain a positive amount is split if and only if the smallest denomination divides it |
| Denominations.GreedyIsFewest | extension/src/private/denominations.ts:8-9 | on a chain no way to pay uses fewer notes |
| Denominations.SplitIsFewest | extension/src/private/denominations.ts:8-33 | the same for every split, and for the returned pieces whenever they are worth the amount |
| Denominations.NotFewestWithoutChain | extension/src/private/denominations.ts:8-9 | without a chain the split may use more notes than needed, or find none |
| Relayer.Service.Submit | offchain-go/internal/relayer/relayer.go:185-272 | every outcome in terms of the request, the estimate, the simulated cost and the sending: each refusal if and only if its condition is the first to fail, the profit of a sent spend, and that the estimate learns exactly when a simulation succeeded |
| Relayer.LearnBounded | offchain-go/internal/relayer/relayer.go:65-73 | an estimate never leaves the range of what was seen and never falls below the cost just learned |
| Relayer.QuoteIs | offchain-go/internal/relayer/relayer.go:54-61 | when nothing wraps a quote is the buffered estimate in asset units plus the target margin |
| Relayer.QuoteHonoured | offchain-go/internal/relayer/relayer.go:204-251 | a quoted fee passes both gates after any costs learned in between, as long as none exceeds the buffered estimate, and the spend has no loss |
| Relayer.NoLoss | offchain-go/internal/relayer/relayer.go:242-259 | a spend that passes the final gate keeps at least the minimum margin when the gate's own products fit 64 bits |
| Relayer.GatesAre | offchain-go/internal/relayer/relayer.go:204-251 | when nothing wraps, the first gate asks for the estimate and the second for the cost with the minimum margin, both in asset units |
| Relayer.ProfitIsEarned | offchain-go/internal/relayer/relayer.go:259-260 | a sent spend that the vault accepts raises the relayer's account by the fee, so after the gas the reported profit is what it earned |
| Relayer.NeverLosesIff | offchain-go/internal/relayer/relayer.go:242-251 | with a minimum margin of at most 100 %, the gate admits only fees that cover the real cost if and only if cost times rate fits 64 bits |
| Relayer.WrappedCostPasses | offchain-go/internal/relayer/relayer.go:48 | a cost of 100 XLM, which fits a transaction's fee field, at ten thousand asset units each passes the gate with fee zero |
| Relayer.Converges | offchain-go/internal/relayer/relayer.go:65-73 | under a constant lower cost c the estimate falls at every step until it is in [c, c + 7] and stays there |

## Left out

- VaultContract.Vault.Transact: the token does not call back; the lock is checked and cleared, and a nested call is not modelled.
- Solvency.Solvent: a run's transcript without collisions is a hypothesis; nothing is said about how hard a collision is to find.
- Indexer.Node.RunTick: database errors in the middle of a tick. Each of them leaves the tables as a failing fetch at the same place does, or as they were before the statement; IndexerSafety.PrefixSafety covers stopping after any committed statement.
- IndexerHealing.SelfHealing: when single events of a ledger may be hidden, the claim is about the leaves; no gap reveals a nullifier dropped beside a stored leaf, which is fetched again only if a later rewind happens to reach its ledger.
- WalletPlans.ShieldBalances: amounts are natural numbers; the builder does not check the sign, and a negative amount has no output note in the model.
- WalletPlans.TransferBalances: amounts are natural numbers, for the same reason.
- NoteStore.DriveAccounting: failed or repeated submissions, fees that change between chunks and incoming notes.
- NoteStore.SelectNotes: the order of notes of equal amount, which the source's comparison leaves to the engine.
- IndexerPaging.FetchWindow: the pages read for one window are bounded by a budget, where the source reads on until a short page; IndexerPaging.PagesSucceed says which budget is enough.
- Relayer.Service.Submit: the decoding of the request body and errors in encoding the call.
- IndexerTwin.TwinNode.RunTick: database errors in the middle of a tick, as for the other indexer; its transactional apply is the same step, so prefix safety carries over. A failing code-entry lookup is an RPC failure like any other.
- The indexers' endless loops with their backoff, sleeps and logging; the 32-bit casts of ledger numbers.
- Time to live, archival, `upgrade`, the authorization of `set_paused` and key registration in the vault.
- 32-bit overflow of the leaf index, which the capacity check excludes long before.
- Poseidon2, Baby Jubjub, Groth16, keccak, XDR and the stream cipher, which stay uninterpreted.
- The wallet's cache of zero hashes, its fetch of commitments from the indexer or by RPC, seed derivation and the bech32m address format.
- The scan cursor in local storage, the self-transfer `transfer`, and the retry rules of the older payment flow.
- HTTP handlers, event streams, Postgres connections, RPC clients, keeper, extension plumbing and user interface.
