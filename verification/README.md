# A verified model of the Tangerine node core

Four long-lived components of the node, modelled in Dafny and proved: the transaction pool, the consensus
application that proposes, verifies, confirms and delivers blocks, the canonical chain with its indexes, and
the section indexer; below them the gas and balance accounting they rely on. `dafny verify dfyconfig.toml`
checks everything.

Main results, by component.

**Consensus application** (`Sequencing`, `Dexcon`, `Ledger`, `PayloadBuilder`, `DexconApp`).
The verdict of VerifyBlock is given a reference definition: everything undelivered followed by the payload is
executable from the delivered state, even if each transaction costs its sender the full amount. That is exactly
what every EVM that keeps to the assumptions runs to the end (`ExecutableExactlyWhenEveryMachineRuns`). The loops
of VerifyBlock reach exactly that verdict (`DexconApp.VerifyBlock`). A run of confirming accepted blocks and
delivering the oldest one completes without a panic if and only if no confirmed block wraps a nonce past 2^64-1
(`RunsNeverPanic`), a verdict survives delivery (`VerdictIsStable`), and the incremental ledger is always the one
recomputed from the confirmed blocks. What preparePayload builds is given a reference definition too: as much of
the accounts' offers, in the order they come, as the gas limit lets through. It ends at an eligible next
transaction that does not fit, or no account visited has an eligible next transaction left. Every payload
proposed from the pool is accepted if the pool's gas limit is below 2^63 (`ProposeFromPool`).

**Transaction pool** (`Heap`, `SortedMap`, `TxList`, `PricedList`, `PoolLists`, `PoolCore`, `PoolNonces`, `Sums`,
`PoolLevels`, `PoolReset`, `PoolAdd`, `TxPool`).
`TxPool.Valid` says: the known transactions are exactly those of the two lists, no nonce of an account is in
both, executable lists run without gaps from the state nonce, no stored list is empty, every known transaction
is on the price heap, the stale counter covers the surplus entries, and nothing known is below the state nonce,
unaffordable or above the gas limit. Every public operation keeps it, and its contract says which transactions
it drops and moves. `AddTx` says what becomes of an accepted transaction under each of the three limits. While
an operation moves transactions, those in neither list are "in limbo"; small lemmas say how transactions enter
and leave limbo. Eviction is shown to compute one number, the largest level at which the pool fits, and the level
is unique.

**Chain** (`HeaderChain`, `Reorg`, `BlockChain`). After every header write the number index is exactly the
ancestor path of the current header, whose total difficulty is maximal. Reorganisation moves index and
transaction lookup table exactly. Full nodes never fork, and a valid batch of new blocks on a stored parent is
appended as a whole (`BatchIsAppended`).

**Indexer** (`ChainIndexer`). Two threads, with setValidSections taken statement by statement because a failed
reset calls it without the lock. Section heads stay joined by parent links in every interleaving in which a
rollback and a failed reset do not cut back at the same time, and also if they do but both drop everything and at
most one section is left. In every other overlap some order of the statements breaks them
(`OverlapEndsWellExactlyWhen`).

**Gas** (`Gas`, `Processor`). The gas reported is given in numbers, the sender gets the rest back and the fee
receiver is paid for it (`AppliedPays`), total balance is conserved, the gas pool pays exactly the gas reported, and
the size of the pool does not matter for an accepted block.

## Properties that do not hold

Six expectations fail in the code; each has a concrete instance and the exact condition.

- The tracked pending nonce is not always the nonce after the executable list. When a reset also raises the
  minimum price, a remote executable transaction that has just been included is removed for its price and pulls
  the tracked nonce below the state nonce; if the account's list ends up empty nothing repairs it until the next
  reset, and nothing queued counts as ready. `TxPool.TxPool.Reset` states the condition both ways,
  `TxPool.NonceCanBeLeftBehind` takes a pool there through AddTx and Reset. The pool invariant allows for it.
- The tracked pending nonce of the source is a 64-bit number and becomes 0 after a transaction with nonce 2^64-1.
  Tracked nonces are unbounded here, and they fit 64 bits if and only if no executable transaction has that nonce
  (`PoolAdd.TrackedNonceFitsExactlyWhen`; instance `TxPool.TrackedNonceCanWrap`).
- A payload preparePayload builds can be refused by VerifyBlock, because the block gas is added up through `int64`.
  Whatever order the accounts come in, the payload is accepted, if and only if no account's own offer, as far as
  the block lets it through, takes in a gas limit of 2^63 or more, or all offers together fit the block
  (`PayloadBuilder.EveryPayloadAcceptedExactlyWhen`). `DexconApplication.OversizedGasIsBuiltAndRefused` takes one
  such list through preparePayload and VerifyBlock. The pool hands out no such list while its own gas limit is
  below 2^63 (`TxPool.ProposeFromPool`).
- A block VerifyBlock accepts is refused by addConfirmedBlock, and BlockConfirmed panics, exactly if a sender's
  nonce wraps past 2^64-1 (`Sequencing.AcceptedBlocksIncrease`, `Dexcon.RunsNeverPanic`,
  `DexconApplication.DexconApp.BlockConfirmed`; instance `Sequencing.WrappedNonceIsRefused`). Runs without a
  transaction at nonce 2^64-1 always complete (`Dexcon.RunsBelowLastNonceComplete`).
- GetAncestor agrees with walking parent links except when the walk comes to the zero hash at a number without an
  index entry, which then "matches". That is so for a start at the zero hash above the head, and for a header
  asked for under too high a number, as long as the header cache, which ignores the number, answers.
  `HeaderChain.HeaderChain.GetAncestor` states the exception both ways; `HeaderChain.ZeroHashHasAnAncestor` and
  `HeaderChain.GenesisIsItsOwnAncestor` are instances. Under its own number no header is affected
  (`HeaderChain.OwnNumberNeverStrays`).
- The indexer's section heads do not always match its counter. A rollback to one section that finishes after a
  failed reset has removed every head leaves one section stored without a head
  (`ChainIndexer.RollbackBesideFailedReset`; `ChainIndexer.IndexerCanBreak` gives such a run of an empty indexer).
  `ChainIndexer.OverlapEndsWellExactlyWhen` is the exact condition.

Reorganising onto a lower head would leave index entries above it; the index is exact if and only if the new
head is not lower (`Reorg.IndexExactExactlyWhenNotLower`, `Reorg.LowerHeadLeavesEntryBehind`). With every
difficulty 1 the code never does that.

## Model

| member | source | states |
|---|---|---|
| Gas.ComputeIntrinsicGas | core/state_transition.go:92-122 | the counting loop with its two overflow guards returns the intrinsic gas of the Yellow Paper, or an error exactly if that does not fit 64 bits |
| Gas.IntrinsicGasInNumbers | core/state_transition.go:92-122 | 21000, or 53000 for a creation under Homestead, plus 4 for each zero byte and 68 for each other byte, if that fits 64 bits |
| Gas.HomesteadIsStricter | core/state_transition.go:92-122 | a gas limit that covers the intrinsic gas under the Homestead rule covers it under either rule |
| Gas.GasPool.AddGas | core/gaspool.go:29-35 | fails (the source panics) exactly on 64-bit overflow |
| Gas.GasPool.SubGas | core/gaspool.go:39-45 | fails exactly if the pool is too small and then changes nothing |
| Gas.AppliedExactlyWhen | core/state_transition.go:165-284 | a message is applied if and only if its nonce is the sender's, the sender can pay gas and value, the pool has the gas and the limit covers the intrinsic gas |
| Gas.RunsOnChargedWorld | core/state_transition.go:165-178 | the EVM runs with the sender charged for the whole gas limit and at the next nonce, everyone else untouched, and with the gas limit less the intrinsic gas |
| Gas.GasUsedInNumbers | core/state_transition.go:303-341 | the gas reported from what the run consumed and its refund counter, under both refund rules |
| Gas.AppliedPays | core/state_transition.go:286-300 | after the run the sender gets the unused gas back, the fee receiver the price of the gas used (the same account both), and nobody else anything; no nonce changes |
| Gas.PoolPaysGasUsed | core/state_transition.go:286-341 | the pool shrinks by exactly the gas reported, at most the limit; under the Tangerine refund rule at least half of it |
| Gas.PoolOnlyPays | core/state_transition.go:165-178 | two pools that both have the gas give the same world, gas and verdict |
| Gas.SettleTotal | core/state_transition.go:286-336 | refund and fee together put back exactly what was charged up front |
| Gas.TransitionConserves | core/state_transition.go:244-301 | under either refund rule the total balance changes by exactly what the message execution itself changed |
| Gas.StateTransition.UseGas | core/state_transition.go:156-163 | no underflow: gas is taken exactly if there is enough |
| Gas.StateTransition.BuyGas | core/state_transition.go:165-178 | which error comes first, and that an error changes nothing |
| Gas.StateTransition.PreCheck | core/state_transition.go:180-191 | nonce errors before payment errors; success charges the sender and the pool |
| Gas.StateTransition.RefundGas | core/state_transition.go:303-336 | both refund rules, with the sender credited and the pool refilled unless that overflows |
| Gas.StateTransition.Execute | core/state_transition.go:262-301 | after the intrinsic gas, execution, refund and fee give the reference outcome and AddGas does not panic |
| Gas.StateTransition.TransitionDb | core/state_transition.go:244-301 | the stateful transition reaches the reference outcome; which of the late errors comes when, and what each error leaves behind |
| Processor.Process | core/state_processor.go:56-126 | the loop over a block equals the recursive reference |
| Processor.ProcessedStepByStep | core/state_processor.go:56-126 | every transaction is applied from where the one before left off and its receipt reports its own gas and failure; a block that fails does so at the first rejected transaction, with its error |
| Processor.ReceiptsAccountForPool | core/state_processor.go:56-126 | cumulative gas is the running sum of the receipts' gas and equals what the pool lost |
| Processor.PoolDoesNotMatter | core/blockchain.go:1739-1771 | two pools that hold the block's gas give the same world, receipts and gas, and neither is exhausted |
| Processor.BlockConserves | core/state_processor.go:56-82 | conservation lifts to whole blocks |
| Processor.SetReceiptsData | core/blockchain.go:844-879 | writes in place the difference of cumulative values into every receipt, if the counts match, so that the gas fields add up to the cumulative ones in 64 bits |
| Processor.DerivedGasIsGasUsed | core/blockchain.go:862-867 | differences of running sums are the gas used |
| Processor.ReceiptsRoundTrip | core/blockchain.go:852-867 | SetReceiptsData recovers the gas used of every receipt Process made |
| Sequencing.ExtendsIsConcat | dex/app.go:358-423 | a list is executable exactly if its first part is and the second extends it |
| Sequencing.ExecutableMonotone | dex/app.go:394-423 | more balance and the same nonces keep a list executable |
| Sequencing.SpendFits | dex/app.go:394-423 | an executable list never costs a sender more than the balance |
| Sequencing.LastBeforeNext | dex/app.go:358-371 | the nonce after the last undelivered one is the expected nonce |
| Sequencing.NextNonceInNumbers | dex/app.go:358-371 | the expected nonce is the state nonce plus the transactions sent, in 64 bits |
| Sequencing.AppliedEffect | core/state_transition.go:244-301 | an applied transaction bumps its sender's nonce by one, costs it at most its cost and lowers no other external account |
| Sequencing.TailStaysExecutable | dex/app.go:440-493 | after the first transaction of an executable list the rest is executable |
| Sequencing.FrontRuns | dex/app.go:440-493 | the front of an executable list is processed without error and leaves the rest executable |
| Sequencing.RunsOnCostliestExactlyWhen | dex/app.go:394-423 | on an EVM that uses up all gas and value a list runs to the end if and only if it is executable |
| Sequencing.ExecutableExactlyWhenEveryMachineRuns | dex/app.go:342-426 | a list is executable if and only if every EVM that keeps to the assumptions runs it to the end |
| Dexcon.ConfirmKeepsInv | dex/app.go:503-577 | when addConfirmedBlock takes an accepted or empty block, everything undelivered stays executable |
| Dexcon.ConfirmStepGoes | dex/app.go:503-577 | confirming an accepted or empty block goes through if and only if no nonce wraps, and then keeps the invariant |
| Dexcon.DeliveryLeavesExecutable | dex/app.go:429-500 | delivering the oldest block succeeds, and what was executable after everything undelivered still is |
| Dexcon.DeliverKeepsInv | dex/app.go:429-500 | delivery does not fail and keeps the invariant |
| Dexcon.DeliveryStepByStep | core/blockchain.go:1739-1860 | a delivery takes the block off the queue and adds one whose state is the finalized state after its transactions, one receipt each; an empty block only finalizes |
| Dexcon.DeliveryPanics | dex/app.go:429-500 | why a delivery panics: no configuration, a witness that does not match, or the first rejected transaction |
| Dexcon.RunsNeverPanic | dex/app.go:285-500 | a run of Confirm and in-order Deliver steps completes, every delivered transaction meeting its nonce, balance and intrinsic gas, if and only if no confirmed block wraps a nonce |
| Dexcon.NoWrapBelowLast | dex/app.go:551-556 | no block wraps a nonce without a transaction at nonce 2^64-1 |
| Dexcon.RunsBelowLastNonceComplete | dex/app.go:285-500 | every run whose confirmed transactions stay below nonce 2^64-1 completes |
| Dexcon.StartIsGood | dex/app.go:61-75 | the invariant holds at start |
| Dexcon.ProcessEffect | dex/app.go:440-493 | over a whole block nonces advance by the transactions counted and balances drop by at most their costs |
| Dexcon.DeliveryKeepsExpectations | dex/app.go:320-382 | delivery changes neither expected height nor expected nonces and no available balance shrinks |
| Dexcon.VerdictIsStable | dex/app.go:285-426 | a block VerifyBlock accepts is still accepted after the oldest confirmed block is delivered |
| Dexcon.LocalAndImportAgree | core/blockchain.go:1739-1771 | for an accepted block the pool of 2^64-1 and the pool of the block gas limit give the same receipts and gas |
| Ledger.NamingIsCount | dex/app.go:565-567 | an address is named by some undelivered block exactly if it has undelivered transactions |
| Ledger.CostsMatchSnoc | dex/app.go:551-562 | recording a transaction keeps costs and nonces equal to recomputation |
| Sequencing.AcceptedBlocksIncrease | dex/app.go:525-577 | addConfirmedBlock refuses an accepted block if and only if a nonce wraps |
| Sequencing.WrappedNonceIsRefused | dex/app.go:551-556 | after a transaction at nonce 2^64-1 the next one at nonce 0 is accepted by the rule of VerifyBlock and refused by addConfirmedBlock |
| Sequencing.WrappedNonceExists | dex/app.go:551-556 | a concrete state and two transactions of that kind |
| Ledger.ContinuedLast | dex/app.go:78-100 | along nonces that continue, the last nonce of a sender precedes the next expected one |
| Ledger.ChainedFromExpected | dex/app.go:78-100 | consecutive nonces per sender plus expected first nonces are the same as every nonce being the expected one at its position |
| Ledger.ExtendsSplits | dex/app.go:342-425 | the reference splits into the nonce part and the balance part VerifyBlock checks separately |
| Ledger.DropFront | dex/app.go:579-593 | what removing the oldest block takes from cost, count and last nonce of an address |
| DexconApplication.ValidateNonce | dex/app.go:78-100 | finds each sender's first nonce, or fails exactly if some sender's nonces are not consecutive |
| DexconApplication.ValidateGasPrice | dex/app.go:104-117 | accepts exactly the lists whose every price reaches the configured minimum |
| DexconApplication.ExpectedNonce | dex/app.go:358-371 | the cached nonce plus one, or the state nonce, is the expected nonce |
| DexconApplication.AvailableBalance | dex/app.go:373-382 | state balance minus undelivered cost |
| DexconApplication.StartBalances | dex/app.go:373-382 | one available balance for every sender |
| DexconApplication.VerifyBalances | dex/app.go:394-423 | the running balances accept exactly the affordable lists within the gas limit |
| DexconApplication.RecordTransactions | dex/app.go:538-563 | succeeds exactly on increasing nonces and then costs, nonces and per-block costs equal recomputation |
| DexconApplication.CountSenders | dex/app.go:565-567 | counters equal the number of undelivered blocks naming the address |
| DexconApplication.RemoveAddress | dex/app.go:579-593 | one address of a delivered block: its maps equal recomputation from the remaining blocks |
| DexconApplication.RemoveAddresses | dex/app.go:579-593 | all addresses of a delivered block |
| DexconApplication.ExecuteBlock | dex/app.go:440-493 | processing and finalising the delivered block is the reference delivery |
| PayloadBuilder.EveryPayloadAcceptedExactlyWhen | dex/app.go:197-257 | every payload preparePayload can build from the pending lists is accepted if and only if no account's own offer takes in a gas limit of 2^63 or all offers fit the block together |
| PayloadBuilder.NoneReached | dex/app.go:250-255 | if no account's own offer takes in such a gas limit, no payload does, in any order |
| PayloadBuilder.ReachedIsOver | dex/app.go:250-255 | with such an offer first, the payload exceeds the block if the offers together do |
| PayloadBuilder.BuiltExtends | dex/app.go:197-257 | the payload can follow everything undelivered, at permitted prices, from the pending lists, within the limit as `int64` adds up |
| PayloadBuilder.BuiltIsMaximal | dex/app.go:197-257 | it ends at an account's eligible next transaction that does not fit, or no account visited has an eligible next one |
| PayloadBuilder.OffersEntry | dex/app.go:219-256 | every offered transaction has its account's expected nonce and is eligible where it comes |
| PayloadBuilder.EligibleExactlyWhen | dex/app.go:228-248 | with the expected nonce a transaction is eligible if and only if its price is high enough and everything before followed by it is executable |
| PayloadBuilder.OffersExhaust | dex/app.go:197-257 | after all offers no account has anything eligible left |
| PayloadBuilder.OfferUnaffected | dex/app.go:206-217 | an account offers the same whatever other accounts put in front |
| PayloadBuilder.FitIsBeginning | dex/app.go:250-255 | what the block takes is the longest beginning within the limit |
| PayloadBuilder.SmallDataNeverOverflows | dex/app.go:234-238 | for what the pool admits the intrinsic gas never overflows |
| PayloadBuilder.OversizedIsBuilt | dex/app.go:250-255 | a free transaction with a gas limit of 2^63 or more is built and exceeds the block |
| DexconApplication.OversizedGasIsBuiltAndRefused | dex/app.go:250-255 | preparePayload returns such a transaction as the payload and VerifyBlock calls the block invalid |
| PayloadBuilder.AppendOne | dex/app.go:228-255 | one transaction is passed over exactly if it is not eligible and ends the payload exactly if it is eligible and does not fit |
| PayloadBuilder.AppendAccount | dex/app.go:219-256 | appends exactly what the block takes of the account's offer, stops the payload exactly if that is not all of it, and fails exactly if it is and the transaction after it overflows |
| PayloadBuilder.TripsAtStep | dex/app.go:234-238 | which account makes preparePayload fail: everything offered so far is taken and its next transaction overflows |
| PayloadBuilder.FullNeverTrips | dex/app.go:250-253 | once the block is full none does |
| PayloadBuilder.StartIndex | dex/app.go:223-227 | the 64-bit difference converted to a signed index finds the expected nonce exactly if the list has it |
| PayloadBuilder.OnlyOneNext | dex/app.go:227-256 | where the inner loop breaks off, no later transaction of the list could be next |
| PayloadBuilder.StaysExhausted | dex/app.go:197-257 | appending other accounts' transactions does not make an exhausted account eligible again |
| DexconApplication.DexconApp.constructor | dex/app.go:61-75 | an empty ledger is valid |
| DexconApplication.DexconApp.VerifyBlock | dex/app.go:285-426 | returns exactly the reference verdict; when it asks for a retry and when it accepts, in the fields of the block and the application |
| DexconApplication.AcceptableMeans | dex/app.go:342-425 | a payload is acceptable if and only if prices and block gas permit it and everything undelivered followed by it is executable |
| DexconApplication.DexconApp.VerifyTransactions | dex/app.go:342-425 | accepts exactly the payloads that extend everything undelivered at permitted prices within the gas limit |
| DexconApplication.DexconApp.PreparePayload | dex/app.go:159-260 | which error, if any, exactly; otherwise exactly the reference payload of the accounts reached before the timeout: it extends everything undelivered, comes from the pending lists, is maximal, and is accepted if no pending gas limit reaches 2^63 |
| DexconApplication.DexconApp.BuildPayload | dex/app.go:196-257 | the loop over the accounts builds exactly the reference payload |
| DexconApplication.DexconApp.AddConfirmedBlock | dex/app.go:525-577 | fails exactly on an undecodable payload or a non-increasing nonce; otherwise the queue is longer by the block and, unless its hash was confirmed before, the ledger is the recomputed one |
| DexconApplication.DexconApp.BlockConfirmed | dex/app.go:503-513 | panics exactly if the block is refused; for a block consensus may confirm, exactly if a nonce wraps, and otherwise everything undelivered stays executable |
| DexconApplication.DexconApp.RemoveConfirmedBlock | dex/app.go:579-593 | leaves the ledger recomputed from the rest |
| DexconApplication.DexconApp.BlockDelivered | dex/app.go:429-500 | the stateful delivery is the reference delivery and panics exactly when that fails; if everything undelivered was executable it does not, and what is left is executable |
| DexconApplication.DexconApp.DeliverConfirmed | dex/app.go:437-500 | executing the oldest block and taking it off the ledger is the reference delivery |
| HeaderChain.UpStaysInTree | core/headerchain.go:741-758 | walking up k parents of a stored header stays among stored headers, k numbers lower |
| HeaderChain.CanonicalIsAncestorPath | core/headerchain.go:167-199 | every index entry is the ancestor of the head at its number |
| HeaderChain.UpFollowsIndex | core/headerchain.go:741-757 | walking up from an indexed header agrees with the index |
| HeaderChain.TdIsPathDifficulty | core/headerchain.go:150-162 | a total difficulty is the sum of difficulties along the path to genesis |
| HeaderChain.DeleteAbove | core/headerchain.go:168-177 | the delete-above loop ends and removes exactly the entries above the number |
| HeaderChain.Reroute | core/headerchain.go:179-191 | the re-route loop ends with the index following the new head's ancestors |
| HeaderChain.HeaderChain.constructor | core/headerchain.go:83-118 | a chain of genesis alone is valid |
| HeaderChain.HeaderChain.WriteHeader | core/headerchain.go:144-208 | keeps the index exactly the path of the current header, all total difficulties right and the current one maximal; the header becomes current exactly if heavier, or equally heavy and the coin says so |
| HeaderChain.HeaderChain.GetAncestor | core/headerchain.go:729-759 | returns a hash exactly if the walk arrives within the budget or strays, and the ancestor that parent links give exactly if it does not stray; for every number, with the header cache answering under any number; and how many headers were checked |
| HeaderChain.HeaderChain.SearchAncestor | core/headerchain.go:741-758 | the loop of the same |
| HeaderChain.ZeroHashHasAnAncestor | core/headerchain.go:741-745 | an instance of straying |
| HeaderChain.GenesisIsItsOwnAncestor | core/headerchain.go:741-801 | another: the cached genesis under number 5 |
| HeaderChain.OwnNumberNeverStrays | core/headerchain.go:741-758 | from a header under its own number, or an unknown hash other than zero, the walk never strays |
| Reorg.WriteTxLookupEntries | core/rawdb/accessors_indexes.go:43-58 | lists every transaction at its position and touches no other entry |
| Reorg.Descend | core/blockchain.go:1997-2009 | walks down to the given number and collects the path |
| Reorg.FindFork | core/blockchain.go:1997-2039 | ends at a common ancestor with both paths to it, and every common ancestor lies at or below it |
| Reorg.ForkIsHighest | core/blockchain.go:2016-2039 | the two paths share no block of equal height above the fork |
| Reorg.SharedIsLower | core/blockchain.go:2016-2039 | every common ancestor of the two heads lies at or below the fork |
| Reorg.InsertBlock | core/blockchain.go:2052-2064 | one block on top keeps index and lookup table in step |
| Reorg.InsertChain | core/blockchain.go:2052-2064 | the index follows the new chain up to the new head and is otherwise unchanged |
| Reorg.NotAbandoned | core/blockchain.go:2066-2071 | no transaction below the fork is among the abandoned ones |
| Reorg.FinishInserting | core/blockchain.go:2066-2071 | deleting abandoned but not re-added transactions leaves the lookup table exact |
| Reorg.Reorganise | core/blockchain.go:1962-2071 | the index follows the new chain and the lookup table holds exactly its transactions, each at its position |
| Reorg.IndexExactExactlyWhenNotLower | core/blockchain.go:2052-2064 | the index is exactly the new chain if and only if the new head is not lower |
| Reorg.LowerHeadLeavesEntryBehind | core/blockchain.go:2052-2064 | an instance: reorganising to a heavier, lower head leaves an index entry above it |
| BlockChain.TdIsNumber | core/headerchain.go:580-583 | with difficulty 1, heavier means higher |
| BlockChain.BlockChain.Insert | core/blockchain.go:564-581 | new head and index entry; the header head moves only if the entry changed |
| BlockChain.BlockChain.WriteBlockWithState | core/blockchain.go:987-1148 | the fork choice, exactly; index and lookup table stay exact and no stored block is higher than the head |
| BlockChain.BlockChain.StoreBlock | core/blockchain.go:987-1103 | storing a block leaves the canonical chain alone |
| BlockChain.BlockChain.MakeHead | core/blockchain.go:1125-1145 | reorganise if needed, list, insert: the block is head of an exact chain |
| BlockChain.BlockChain.ProcessBlock | core/blockchain.go:1710-1910 | a delivered block is appended, found there or refused for its witness, its parent, its transactions or a different hash, exactly; numbers once assigned keep their hash and no side block is written |
| BlockChain.BlockChain.AppendBlock | core/blockchain.go:1795-1820 | at a free number on a stored parent the side-block branch is unreachable |
| BlockChain.BlockChain.InsertOne | core/blockchain.go:1558-1682 | one imported block is stored exactly if its parent is there, it is new, valid and its number free |
| BlockChain.BlockChain.InsertTangerineChain | core/blockchain.go:1502-1698 | import only lengthens the canonical chain and never meets a fork; what handling each block does to headers, index, head and the blocks put aside, and at which block and why it stops |
| BlockChain.BatchIsAppended | core/blockchain.go:1536-1680 | a valid batch of new blocks on a stored parent at free numbers is appended as a whole: all stored and canonical, the last one head, nothing put aside |
| BlockChain.PutAsideOnlyWhen | core/blockchain.go:1568-1582 | a block is put aside only if it is early or its parent is put aside and not stored |
| BlockChain.StopsOrSteps | core/blockchain.go:1536-1680 | a block is handled or stopped at, never both |
| BlockChain.ParentIsHead | core/blockchain.go:1783-1820 | without side chains the stored parent of a block at a free number is the head |
| ChainIndexer.HeadComparisonIsExact | core/chain_indexer.go:345-348 | comparing the old head tells exactly whether sections were rolled back meanwhile |
| ChainIndexer.StepKeeps | core/chain_indexer.go:239-412 | every statement of either thread keeps the invariant, unless the two come to cut back at the same time and that is not harmless |
| ChainIndexer.RunsKeepSectionsLinked | core/chain_indexer.go:239-412 | so does every such interleaving; whenever nobody is cutting back, heads exist exactly below the stored count and are joined by sectionSize parent links |
| ChainIndexer.CutStepAlone | core/chain_indexer.go:453-465 | one statement of setValidSections by the only thread in it |
| ChainIndexer.CutStepTogether | core/chain_indexer.go:386-390 | one statement while both threads drop everything from at most one section, even if the counter wraps below zero |
| ChainIndexer.OverlapEndsWellExactlyWhen | core/chain_indexer.go:386-390 | when a rollback and a failed reset come to overlap, every order of their statements ends with heads that match the counter if and only if both drop everything and at most the first section is left |
| ChainIndexer.OverlapBreaks | core/chain_indexer.go:386-390 | otherwise some order of the statements ends with heads that do not match |
| ChainIndexer.LateSet | core/chain_indexer.go:460-464 | a rollback that assigns its count after the reset removed every head |
| ChainIndexer.LeftBehind | core/chain_indexer.go:460-463 | two decrements in a row skip a head |
| ChainIndexer.RollbackBesideFailedReset | core/chain_indexer.go:258-260 | from every state with several sections stored and the next one taken on, such a run |
| ChainIndexer.IndexerCanBreak | core/chain_indexer.go:386-390 | such a run of an indexer that starts empty |
| ChainIndexer.HeadDoneIsRun | core/chain_indexer.go:239-276 | a notification whose cutting back nothing interrupts is the atomic one |
| ChainIndexer.ResetDoneIsRun | core/chain_indexer.go:386-390 | a failed reset that nothing interrupts drops every section |
| ChainIndexer.CompletedOnlyOnTop | core/chain_indexer.go:345-362 | a section is completed only if all earlier ones are still stored |
| ChainIndexer.NotificationMovesCounters | core/chain_indexer.go:239-296 | after a reorganisation both counters count only sections that end at or below the head, and no fewer than before or than possible; otherwise the known sections are the most that are complete and confirmed, or stay |
| ChainIndexer.TakesOnTheNext | core/chain_indexer.go:318-332 | a section is taken on exactly if idle and more are known than stored, and is the first that is not stored |
| ChainIndexer.HeadNeedsBackend | core/chain_indexer.go:382-412 | in no interleaving does a section get a head before the backend has taken all its headers and the commit |
| ChainIndexer.SectionRun | core/chain_indexer.go:318-362 | a section whose headers link up with the one before is processed and stored |
| ChainIndexer.SectionsFormOneChain | core/chain_indexer.go:382-412 | any two section heads are joined by the right number of links |
| ChainIndexer.Indexer.SetValidSections | core/chain_indexer.go:453-465 | undisturbed, the loop removes exactly the heads from the new count up to the old |
| ChainIndexer.Indexer.OnNewHead | core/chain_indexer.go:239-296 | the notification handler, undisturbed, is the atomic step, keeps the invariant and moves the counters as in the row above |
| ChainIndexer.Indexer.FinishSection | core/chain_indexer.go:343-362 | the locked tail of the update loop is the step and keeps the invariant |
| Heap.FrontIsLeast | core/tx_list.go:30-48 | nothing in a heap is less than its front |
| Heap.Init | core/tx_list.go:112-118 | makes a heap of the same elements |
| Heap.Push | core/tx_list.go:73-79 | adds one element to a heap |
| Heap.Pop | core/tx_list.go:84-98 | takes the least element off a heap |
| Heap.Remove | core/tx_list.go:158-164 | takes the element at a position off a heap |
| SortedMap.SortedIsContents | core/tx_list.go:203-216 | the sorted contents are exactly the map's values in increasing nonce order |
| SortedMap.TxSortedMap.constructor | core/tx_list.go:59-64 | the empty map is valid |
| SortedMap.TxSortedMap.Put | core/tx_list.go:73-79 | map update; index and cache stay in step |
| SortedMap.TxSortedMap.Forward | core/tx_list.go:84-98 | takes off, in order, everything below the threshold; a cached order shifted at the front stays exact |
| SortedMap.TxSortedMap.Filter | core/tx_list.go:102-123 | takes off exactly what the predicate holds of, each once |
| SortedMap.TxSortedMap.Cap | core/tx_list.go:127-148 | keeps the lowest nonces; a cached order cut at the back stays exact |
| SortedMap.TxSortedMap.Remove | core/tx_list.go:152-169 | removes the nonce from map, index and cache |
| SortedMap.TxSortedMap.Ready | core/tx_list.go:178-193 | takes off the longest consecutive run from the lowest nonce if that is not above the start |
| SortedMap.TxSortedMap.Flatten | core/tx_list.go:203-216 | the sorted contents, cached or not |
| TxList.EarlyExitIsFullScan | core/tx_list.go:290-294 | with the caps in place a full scan would find nothing either |
| TxList.LowestNonce | core/tx_list.go:304-310 | the loop finds the lowest nonce |
| TxList.StrictFilterLeaves | core/tx_list.go:298-313 | exactly the nonces below the lowest unpayable one stay |
| TxList.StrictSplit | core/tx_list.go:290-314 | removed and invalidated are together exactly everything from the lowest unpayable nonce up, and share nothing |
| TxList.CutStaysGapFree | core/tx_list.go:325-336 | a gap-free list cut at a nonce is gap-free |
| TxList.TxList.Add | core/tx_list.go:251-272 | inserts exactly if the nonce is free or the price is higher by the bump, in numbers; the caps keep bounding |
| TxList.EntersExactlyWhen | core/tx_list.go:251-262 | the threshold with integer division admits exactly a price p above the old one o with 100 (p + 1) > o (100 + bump) |
| TxList.TxList.Forward | core/tx_list.go:277-279 | takes off everything below the threshold |
| TxList.TxList.Filter | core/tx_list.go:290-314 | removes exactly the unpayable ones whether or not it exits early; a strict list keeps what lies below them |
| TxList.TxList.Cap | core/tx_list.go:318-320 | keeps the lowest nonces |
| TxList.TxList.Remove | core/tx_list.go:325-336 | removes the nonce; a strict list gives up everything above |
| TxList.TxList.Ready | core/tx_list.go:345-347 | takes off the ready run |
| PricedList.StalesNotNegative | core/tx_list.go:397-403 | the stale counter is never negative and the heap never smaller than the pool |
| PricedList.TxPricedList.Put | core/tx_list.go:414-416 | one more entry |
| PricedList.TxPricedList.Removed | core/tx_list.go:421-436 | counts, or rebuilds the heap from the pool once a quarter is stale |
| PricedList.TxPricedList.Cap | core/tx_list.go:440-467 | drops exactly the pooled remote transactions below the threshold, as a full scan would |
| PricedList.TxPricedList.Underpriced | core/tx_list.go:471-493 | decides as a full scan would |
| PricedList.TxPricedList.Discard | core/tx_list.go:497-520 | drops no remote transaction that is dearer than a remote one it keeps, or as dear and of a lower nonce |
| PoolLists.FilterStrict | core/tx_pool.go:1123-1136 | splits an executable list into unpayable, invalidated and remaining transactions |
| PoolLists.RemoveStrict | core/tx_pool.go:905-915 | what removal leaves lies below the nonce, the rest above is invalidated |
| PoolLists.Cap | core/tx_pool.go:976-985 | takes off the highest nonces, each once |
| PoolLists.Ready | core/tx_pool.go:968-969 | takes off the ready run |
| PoolLists.ForwardAgrees | core/tx_list.go:277-279 | what the list object keeps on Forward is what the pool-level operation keeps |
| PoolLists.FilterAgrees | core/tx_list.go:290-314 | the same for Filter on a strict list |
| PoolLists.RemoveAgrees | core/tx_list.go:325-336 | the same for Remove on a strict list |
| PoolLists.CapAgrees | core/tx_list.go:318-320 | the same for Cap |
| PoolLists.ReadyAgrees | core/tx_list.go:345-347 | the same for Ready, and in the same order |
| PoolCore.Detach | core/tx_pool.go:904-915 | taking transactions off a list puts exactly those in limbo |
| PoolCore.Forget | core/tx_pool.go:899-903 | forgetting one in limbo keeps the rest exact |
| PoolCore.File | core/tx_pool.go:708-731 | one in limbo finds its place free in both lists and can be filed in either |
| PoolCore.Supersede | core/tx_pool.go:708-731 | filing an unknown transaction in the place of whatever had its nonce keeps the lists exact |
| PoolCore.AllIsListed | core/tx_pool.go:865-881 | with nothing in limbo the known transactions are exactly those listed, never in both lists |
| PoolCore.AfterRemoved | core/tx_list.go:421-436 | forgetting one transaction keeps every other backed by the heap |
| PoolCore.AfterTaken | core/tx_list.go:440-520 | what Cap and Discard leave on the heap backs the pool without what they hand out |
| PoolCore.CountedAfterPut | core/tx_list.go:414-416 | a new entry keeps the stale counter equal to the surplus, and keeps entries unique exactly if the transaction has no stale one |
| PoolCore.CountedAfterRemoved | core/tx_list.go:421-436 | so does counting or rebuilding after a removal |
| PoolCore.CountedAfterTaken | core/tx_list.go:440-520 | after Cap and Discard the counter is still the surplus if and only if nothing was handed out twice |
| PoolCore.TakenOnce | core/tx_list.go:440-520 | nothing is handed out twice as long as entries are unique |
| PoolNonces.CutDownStep | core/tx_pool.go:891-930 | each removal cuts the account at the lowest removed nonce so far |
| PoolNonces.CutDownKeeps | core/tx_pool.go:483-487 | removals keep executable lists gap-free and nonces tracked |
| PoolNonces.DemotionLeavesRun | core/tx_pool.go:1111-1151 | what demotion leaves is the longest payable run from the state nonce |
| PoolNonces.HopelessGo | core/tx_pool.go:1116-1131 | what demotion drops is exactly what is too old or unpayable |
| PoolNonces.ReadyRun | core/tx_pool.go:968-975 | a ready run begins exactly where the executable list ends |
| PoolNonces.PromotedHere | core/tx_pool.go:947-990 | cleaning, moving the ready run and limiting leave nothing ready or hopeless queued, and drop only the hopeless and the highest nonces of a full remote queue |
| PoolNonces.PromotingStep | core/tx_pool.go:947-990 | promoting one more account keeps what holds of those before it |
| PoolNonces.SettledAfterLimits | core/tx_pool.go:995-1105 | after both limits still nothing queued is ready |
| PoolNonces.PromotedNoneHopeless | core/tx_pool.go:947-1151 | demotion followed by promotion leaves nothing known that is too old or unpayable |
| PoolNonces.LimitByCap | core/tx_pool.go:976-985 | an account's limit takes only the highest nonces and only down to the limit |
| PoolNonces.PromotionKeeps | core/tx_pool.go:749-782 | promotion loses nothing, stays gap-free and keeps nonces tracked |
| PoolNonces.TruncationSparesLocals | core/tx_pool.go:1004-1009 | truncation never touches a local account |
| PoolLevels.LevelIsLargest | core/tx_pool.go:995-1065 | every level above the one reached is too high |
| PoolLevels.TruncatedInNumbers | core/tx_pool.go:995-1065 | local accounts keep everything, every other at least the guaranteed slots of what it had, and if there are still too many no remote account has more than those |
| PoolLevels.TruncationIsUnique | core/tx_pool.go:995-1065 | the outcome of eviction is determined by the sizes |
| PoolLevels.OverEvictsLessThanARound | core/tx_pool.go:1022-1062 | too many are dropped by less than one round over the accounts cut |
| PoolLevels.LowerLevel | core/tx_pool.go:1022-1040 | one round over the offenders lowers the common level by one |
| PoolLevels.Count | core/tx_pool.go:995-999 | the counting loop gives the total |
| PoolLevels.Largest | core/tx_pool.go:1002-1015 | the account popped is one with most transactions |
| PoolReset.LastNonce | core/tx_pool.go:419-422 | the nonce after the last transaction of a gap-free list is state nonce plus length |
| PoolReset.AccountAfterReset | core/tx_pool.go:390-426 | an account is left behind exactly if its list was cut below the new state nonce |
| PoolReset.UpToDateAfterReset | core/tx_pool.go:390-426 | tracked nonces are all exact if and only if no executable transaction was dropped for its price after being included |
| PoolReset.LeftBehindIsNeverReady | core/tx_pool.go:968-969 | nothing queued for an account left behind counts as ready |
| PoolAdd.ReplacementKeeps | core/tx_pool.go:663-686 | replacing an executable transaction changes no nonce |
| PoolAdd.DiscardFindsOne | core/tx_pool.go:653-660 | making room drops a remote transaction if there is one |
| PoolAdd.DiscardSuffices | core/tx_pool.go:653-660 | it leaves room for one more, unless a transaction was handed out twice or only local ones are left |
| PoolAdd.OfferTaken | core/tx_pool.go:646-703 | whoever leaves when a transaction is accepted gave way to it or was among the cheapest remote ones of a full pool |
| PoolAdd.GoneByQueueLimit | core/tx_pool.go:976-985 | promotion drops a payable transaction exactly if it is not executable and its remote sender's queue is full of lower nonces |
| PoolAdd.TakenBackExactly | core/tx_pool.go:813-828 | what becomes of an accepted transaction: the account limit, the executable limit and the queue limit as in the rows below; it stays if its sender is local |
| PoolAdd.GoneByLevel | core/tx_pool.go:995-1065 | an executable transaction is dropped if and only if there are too many, its sender is remote and its nonce lies at or above the level |
| PoolAdd.GoneBySurplus | core/tx_pool.go:1066-1105 | a queued transaction is dropped only with everything the remote sender has queued above it and only if all that is within the surplus; exactly then if no other account with a queue is remote |
| PoolAdd.LocalQueuesStay | core/tx_pool.go:1071-1078 | the queues of local accounts are left alone |
| PoolAdd.TrackedNonceFitsExactlyWhen | core/tx_pool.go:771-781 | a tracked nonce fits 64 bits if and only if no executable transaction of the account has nonce 2^64-1 |
| PoolAdd.ExecutableNotHopeless | core/tx_pool.go:540-549 | the executable lists hold nothing too old or unpayable |
| TxPool.TxPool.constructor | core/tx_pool.go:239-283 | the empty pool is valid and up to date |
| TxPool.TxPool.ForgetKnown | core/tx_pool.go:721-725 | lookup and price heap forget together |
| TxPool.TxPool.MakeKnown | core/tx_pool.go:726-729 | lookup and price heap learn together |
| TxPool.TxPool.EnqueueTx | core/tx_pool.go:708-731 | queues a new or demoted transaction, replacing exactly by the price rule |
| TxPool.TxPool.EnqueueAll | core/tx_pool.go:912-915 | demoted transactions are all queued, none is lost |
| TxPool.TxPool.PromoteTx | core/tx_pool.go:749-782 | both outcomes: filed with the tracked nonce moved on, or forgotten because a better one is there |
| TxPool.TxPool.PromoteRun | core/tx_pool.go:968-975 | a run that continues the list enters completely |
| TxPool.TxPool.RemovePending | core/tx_pool.go:904-916 | the executable list is cut at the transaction and the rest queued |
| TxPool.TxPool.RemoveTx | core/tx_pool.go:891-930 | exactly the transaction is forgotten; the list is cut, the tail queued and the tracked nonce lowered |
| TxPool.TxPool.RemoveAll | core/tx_pool.go:483-487 | removing what the heap let go of cuts each account at the lowest removed nonce |
| TxPool.TxPool.RemoveUnderpriced | core/tx_pool.go:483-487 | exactly the remote transactions below the price go |
| TxPool.TxPool.SetGasPrice | core/tx_pool.go:467-474 | exactly the remote transactions below the price go, each account is cut at the lowest of them, and the pool stays valid |
| TxPool.TxPool.CleanPending | core/tx_pool.go:1113-1136 | drops exactly the hopeless transactions of a list and queues those they invalidate |
| TxPool.TxPool.DemoteAccount | core/tx_pool.go:1113-1149 | the executable run stays, the hopeless go, everything else is queued |
| TxPool.TxPool.DemoteUnexecutables | core/tx_pool.go:1111-1151 | the same for every account, from whatever state the lists were gap-free |
| TxPool.TxPool.CleanQueue | core/tx_pool.go:947-967 | drops exactly the hopeless transactions of a queue |
| TxPool.TxPool.TakeReady | core/tx_pool.go:968-969 | takes the run that continues the executable list; what stays lies beyond |
| TxPool.TxPool.PromoteReady | core/tx_pool.go:968-975 | moves it; nothing known is lost |
| TxPool.TxPool.LimitQueue | core/tx_pool.go:976-989 | applies the account's limit and removes an empty queue |
| TxPool.TxPool.PromoteAccount | core/tx_pool.go:947-990 | nothing ready or hopeless stays queued, only hopeless or over-limit transactions are dropped, and other accounts are left alone |
| TxPool.TxPool.PromoteAccounts | core/tx_pool.go:935-990 | the same for the chosen accounts; no executable transaction is lost |
| TxPool.TxPool.DropLast | core/tx_pool.go:1025-1037 | forgets the last executable transaction and lowers the tracked nonce to it |
| TxPool.TxPool.Round | core/tx_pool.go:1024-1039 | every listed account loses exactly one, and the counter stays the true total |
| TxPool.TxPool.Reduce | core/tx_pool.go:1022-1062 | rounds end at the floor or when everything fits, with all offenders level |
| TxPool.TxPool.NextOffender | core/tx_pool.go:1012-1042 | the next largest account joins the offenders at their common level |
| TxPool.TxPool.TruncatePending | core/tx_pool.go:995-1065 | ends with the remote accounts cut to the largest level that fits, not below AccountSlots |
| TxPool.TxPool.RemoveQueued | core/tx_pool.go:1088-1103 | removes the given queued transactions of an account and nothing else |
| TxPool.TxPool.TruncateQueue | core/tx_pool.go:1066-1105 | exactly the surplus goes, from the top of remote queues, unless only local queues remain |
| TxPool.TxPool.PromoteExecutables | core/tx_pool.go:935-1106 | promotion followed by both limits, each as specified; nothing ready is left queued and a local transaction goes only if hopeless |
| TxPool.TxPool.SetNonces | core/tx_pool.go:419-422 | tracked nonces of accounts with executable transactions follow them |
| TxPool.TxPool.Reset | core/tx_pool.go:390-426 | price drop, demotion, promotion and limits in order, leaving the pool valid on the new state with nothing ready queued and nothing hopeless known; tracked nonces exact if and only if no remote executable transaction below a newly set price is below the new state nonce |
| TxPool.TxPool.ValidateTx | core/tx_pool.go:577-622 | accepts exactly the transactions within size, gas, price, nonce and balance limits, in numbers, and which error comes first |
| TxPool.TxPool.MakeRoom | core/tx_pool.go:646-660 | a full pool refuses exactly what is remote and no dearer than everything, and otherwise drops the cheapest remote ones, at least one if there is any, no more than needed, and as many as needed unless one is handed out twice or none is left |
| TxPool.TxPool.ReplaceExecutable | core/tx_pool.go:663-686 | replaces exactly by the price rule and keeps all nonces |
| TxPool.TxPool.Insert | core/tx_pool.go:661-703 | a checked transaction takes an executable place if its nonce has one, else a queued one, exactly by the price rule |
| TxPool.TxPool.Add | core/tx_pool.go:632-703 | which error or place an offered transaction gets, exactly, and what it does to all others, accepted or not |
| TxPool.TxPool.AddTx | core/tx_pool.go:813-828 | the error, the place and the room made exactly as for Add; then unless it was a replacement the sender is promoted and both limits apply, each as specified, with what becomes of the transaction under each limit |
| TxPool.FirstOffer | core/tx_pool.go:813-828 | a transaction at the state nonce offered to an empty pool becomes executable |
| TxPool.NonceCanBeLeftBehind | core/tx_pool.go:390-426 | a pool whose tracked nonces are not up to date after a reset |
| TxPool.TrackedNonceCanWrap | core/tx_pool.go:771-781 | a pool whose tracked nonce does not fit 64 bits |
| TxPool.TxPool.Status | core/tx_pool.go:865-881 | executable, queued or unknown, exactly |
| TxPool.TxPool.PendingTxs | core/tx_pool.go:540-549 | the executable transactions in nonce order, consecutive from the state nonce, none of them unpayable |
| TxPool.SuitPayload | core/tx_pool.go:540-549 | these lists are what preparing a payload asks for, and with a gas limit below 2^63 no gas limit in them reaches it |
| TxPool.ProposeFromPool | dex/app.go:159-260 | a payload prepared from the pool extends everything undelivered, holds executable transactions only and is accepted if the pool's gas limit is below 2^63 |

## Left out

Assumptions and abstractions:

- Message execution, state tries, encodings, signatures and the governance contract are parameters. `Sequencing.Faithful` and `Dexcon.WellBehaved` state what is assumed of them: a message bumps its sender's nonce by one, costs the sender at most its cost and lowers no other external account's balance; finalising a block does not lower external balances.
- The choice of the fee receiver is an arbitrary function; random tie-breaks and the iteration order of Go maps are arbitrary choices.
- The application's chain grows only by delivery, in order; concurrent block import is not interleaved with it.
- Hashes are identities: equal values have equal hashes and distinct values distinct ones. Stored headers have the number after their parent's.
- The pool's lists are values here; `TxList.TxList` and `SortedMap.TxSortedMap` are the mutable objects, and the agreement lemmas of `PoolLists` say that both leave the same contents. Sharing of list objects, their cost caps and cached orders are not modelled at pool level.
- container/heap, sort and prque are small methods with the usual contracts. `Heap.Remove` restores order over the whole slice instead of sifting from the position.

Not modelled:

- Networking, RPC, journal, event feeds, metrics, logging and timers.
- Heartbeat times: the order in which queues are truncated is arbitrary, and idle queues are not expired.
- Batches (addTxs): one transaction at a time; the pool accepts every sequence of these.
- The section count in the index database, which is only read at start-up. A statement of setValidSections is one step; finer interleavings are not distinguished.
- The encoded size of a transaction is a parameter of the pool and the Homestead flag is fixed. Go slices are shorter than 2^63.
- Fast sync, pruned ancestors, block caches, trie garbage collection, SetHead and the round-height search at start-up.
- Indexer checkpoints, child indexers, and whether sections match the current canonical chain.
- Logs and bloom filters in receipts.
- The branch of VerifyBlock that asks for a retry when the configuration of a round is missing: validateGasPrice has already failed then.

Stated weaker than the source could be read:

- Processor.SetReceiptsData: writes the gas used only; transaction hashes, contract addresses and log positions are not modelled, because they are copied or hashed from data outside the model.
- DexconApplication.ExecuteBlock: the lookup of the proposer's address is an arbitrary function, so its panics (an unknown or unparsable proposer) are not outcomes.
- DexconApplication.DexconApp.RemoveConfirmedBlock: for the oldest block, because consensus delivers blocks in the order it confirmed them.
- DexconApplication.DexconApp.BlockDelivered: for an unknown hash or the oldest block, for the same reason.
- BlockChain.BlockChain.InsertTangerineChain: pruned ancestors and the re-import of known blocks without state are left out with fast sync and pruning.
- TxPool.TxPool.ValidateTx: no unrecoverable sender and no negative value, because a transaction here carries its sender and values are natural numbers.
- TxPool.TxPool.PromoteTx: the tracked nonce is unbounded; what the pool does after a tracked nonce has wrapped to 0 is not modelled.
- TxPool.TxPool.SetNonces: the same.
- DexconApplication.DexconApp.DeliverConfirmed: for the oldest block, as BlockDelivered.
- ChainIndexer.Indexer.SetValidSections: the object's methods run undisturbed; the interleavings are those of the step model.
