# Verification of the Goliath sequencer, executer and Greeter storage

This project models three parts of the repository in Dafny and proves properties of them.

* `sequencer/` is the replication protocol of `sequencer/mvp/sequencer/core.go`: a primary appends signed,
  hash-chained blocks, and replicas verify them, buffer those that arrive early and ingest them into two tables.
  `Messages.dfy` has the protobuf messages and their signature hashes, `Core.dfy` one node as functions on its
  state, `Sequencer.dfy` the node as a class that is proved against those functions. `Chain.dfy` proves what every
  event keeps whoever signs, with tip binding and accountability. `Acceptance.dfy` says in terms of fields and library
  functions whose signature a block and a message need, which messages are expired, and what each call leaves.
  `Replica.dfy` is one replica against an honest chain. `Network.dfy` is the whole system of one primary, any number of
  replicas, failing disks and a network that drops, duplicates, reorders and forges.
* `scheduler/` is the parallel executer of `scheduler/cmd/executer/main.go`. `Graphs.dfy` has edge lists and the list
  of all paths, `Walks.dfy` the queue walk with its sub-batches, `Levels.dfy` that it is breadth first,
  `Ranks.dfy` the exact condition for the walk to end, `Construction.dfy` the graph construction and how often each transaction is executed, `Executer.dfy` the loops,
  `Serial.dfy` serial equivalence, `AsWritten.dfy` the schedule with the map as the source keys it, `Shifts.dfy`,
  `WholeRun.dfy` and `SerialRun.dfy` the run over all windows and the state it ends in, `AsWrittenRun.dfy` the same with
  the map as written, `SmallWalks.dfy` walks on small graphs and `Leaves.dfy` the text format of state leaves.
* `greeter/` is the storage of a Solidity `string` in the compiled `Greeter` contract, whose Cairo text stands on line 1
  of `hardhat-contracts/contracts/Greeter.json`. `Words.dfy` has 256-bit words and masks, `StringLayout.dfy` the canonical
  encoding (Solidity documentation, "Layout of State Variables in Storage", section "bytes and string") and the
  bit arithmetic of the code, `Greeter.dfy` the store and load code over storage and memory.

## Assumptions

* Cryptography is a record of functions that every theorem quantifies over. A theorem that needs an assumption
  about it has it in its `requires`: `CollisionFree` (no two block contents with one hash), `SignerIsOperator` (the
  signer's signatures recover to the operator key), `Unforged` (a block with a valid operator signature has the
  signature hash of an announced block). Every theorem takes it that public key recovery reports an error unless a
  signature has 65 bytes; the subset type `Crypto` says so. `TipBinding` and `Accountability` assume nothing else: the
  first ends in agreement or in a hash collision.
* A block digest covers the marshalled block with an empty `Block.Sig` and includes the body with the body's own
  signature. So agreement between nodes is on block content other than `Block.Sig`. Nil and empty byte fields are the
  same once marshalled.
* A database transaction takes effect as a whole or not at all, and each node's disk says for every attempt which.
  Row numbers start at 1 without gaps. Runs start from an empty database, as the tip always starts at genesis.
* `sequence` accepts messages at a time passed as a parameter.
* A sub-batch finishes before the next one starts, which is what the wait group is there for; the source calls
  `wg.Add` inside the goroutine. Transactions of one sub-batch may take effect in any order.
* The data area of the string (a Pedersen hash) does not cover slot 0 and does not wrap for any length up to 2^64 - 1.

## Where the code differs from what is said about it

* The comments of the executer say that `lastToModifyLeaf` is a map by leaf, but it is keyed by the address of the loop
  variable. With the Go version in `scheduler/go.mod` all leaves of one transaction share an address, and two transactions
  never do. The construction is generic in its keys, so both maps are covered. By leaf, conflicting transactions end in
  sequence order. As written, no transaction depends on another one (`AsWrittenOrdersNothing`), the walk ends if and only
  if every transaction declares at most one leaf (`AsWrittenHaltsExactly`), and then it runs the transactions in groups of 100
  (`AsWrittenSchedule`): an earlier one ends before a later one if and only if they are in different groups, whatever
  leaves they declare (`AsWrittenOrdersExactly`), so the final state is the serial one for all effects if and only if no
  two transactions of a group declare the same leaf (`AsWrittenSerialExactly`; `AsWrittenRunSerialExactly` over all windows). Two transactions on one leaf are the
  smallest list that races (`AsWrittenRacesOnOneLeaf`).
* The walk has no visited set. A transaction is executed as often as everything its leaves depend on taken together, the
  root counting once (`ExecutionsAddUp`), so at least once for each leaf, and every transaction is executed exactly once
  if and only if each declares at most one leaf (`RunsExactlyOnce`). Two leaves are enough for two executions, whether
  earlier transactions declare them (`TwoLeavesRunTwice`) or not (`TwoNewLeavesRunTwice`).
* The walk orders last executions only: a transaction with an earlier one's leaf and a new leaf first runs at the same
  time as the one it depends on (`FirstRunTooEarly`).
* The executer's windows have inclusive bounds 1000 apart, so each multiple of 1000 below the height is fetched twice
  (`FetchAll`) and, with at most one leaf each, executed twice (`ExecutedAsOftenAsFetched`). Over the whole run every
  transaction is executed exactly once if and only if there are at most 1000 and each declares at most one leaf
  (`RunExecutesOnceExactly`). With at most one leaf each, the whole run ends in the serial state for all effects if and only
  if no transaction whose number is a multiple of 1000 below the height declares a leaf (`WholeRunSerialExactly`); in any
  case it ends in the state of running what the windows fetch in order (`WholeRunIsSerial`).
* The drain of out-of-order blocks runs before the arriving block is processed, so a block that fills a gap leaves its
  successors buffered until the next block event. `Convergence` says exactly that.
* A validly signed block is kept, on the chain or in the buffer, unless its event forgets it: it is the next block after
  the drain, it is not buffered, and its write fails (`EventLosesExactly`; `FailedWriteLosesBlock` is such a run).
  `Convergence` is about the blocks that no event forgot and needs no write to succeed but those of the last drain; on a
  reliable disk it is about all blocks received (`ReliableConvergence`).
* The buffer bound can fail under an equivocating operator (`EquivocationLeavesStaleEntry`) and, with an honest one, after
  a failed write in the drain (`FailedWriteLeavesStaleEntry`). A block event breaks it if and only if the drain leaves an
  entry for the next height, and the block that arrives has that height, passes the signature, link and body checks, and
  its write takes effect; a sequencing event breaks it if and only if there is an entry for the next height, the message is
  accepted and the write takes effect (`StepKeepsBoundExactly`). A run keeps it if and only if no event of the run breaks it
  (`BufferBoundExactly`), since a stale entry is never removed (`StaleEntryStaysForEver`).
* `Sequence` always returns number 0, where `core_test.go` expects the first message to get number 1.

## Model

| member | source | states |
|---|---|---|
| Messages.SigningKeepsSigHash | sequencer/mvp/sequencer/messages/methods.go:98-120 | signing a block leaves the digest that was signed unchanged |
| Messages.MessageDigest | sequencer/mvp/sequencer/messages/methods.go:24-36 | a message's digest covers every field with the signature blanked |
| Messages.BlockDigest | sequencer/mvp/sequencer/messages/methods.go:98-109 | a block's digest covers every field with its own signature blanked, the body's signature included |
| Core.SuccessfulPass | sequencer/mvp/sequencer/core.go:143-154 | a drain pass without error used a validly signed, linked, accepted child of the tip and frees exactly its entry |
| Core.DrainGoesOn | sequencer/mvp/sequencer/core.go:142-155 | the drain continues from the state a successful pass leaves, with fewer entries |
| Sequencer.SequencerCore.constructor | sequencer/mvp/sequencer/core.go:48-103 | a new node stands at genesis with empty tables and satisfies the invariant |
| Sequencer.SequencerCore.Commit | sequencer/mvp/sequencer/core.go:225-274 | both rows and the tip change together, or nothing does |
| Sequencer.SequencerCore.DoProcessBlock | sequencer/mvp/sequencer/core.go:283-364 | the checks in order with their errors, the buffering and the ingestion, keeping the invariant; a block without a valid signature of the operator key leaves the node unchanged and returns an error |
| Sequencer.SequencerCore.ProcessChild | sequencer/mvp/sequencer/core.go:143-154 | one pass of the drain loop; the entry is deleted only on success |
| Sequencer.SequencerCore.CheckOutOfOrderBlocks | sequencer/mvp/sequencer/core.go:140-158 | the drain loop terminates whoever signed the buffered blocks and computes the drain |
| Sequencer.SequencerCore.VerifySequenceMessage | sequencer/mvp/sequencer/core.go:366-433 | no error if and only if data and sender are not empty, the sender's key signed the message, and every expiry condition holds; otherwise the error of the first check that fails |
| Sequencer.SequencerCore.DoSequenceWork | sequencer/mvp/sequencer/core.go:160-223 | tables, chain and tip grow by the signed block with this message if the write commits, and are unchanged if not; announced only after the commit |
| Sequencer.SequencerCore.HandleBlock | sequencer/mvp/sequencer/core.go:110-119 | one block event: drain first, ignore its error, then process; the invariant holds after it |
| Sequencer.SequencerCore.Sequence | sequencer/mvp/sequencer/core.go:436-465 | no error if and only if the node is a primary and the message is decodable and acceptable now; then, and only if the write commits, chain and tables grow by this message; the invariant holds after it |
| Sequencer.SequencerCore.Get | sequencer/mvp/sequencer/core.go:470-515 | the messages with row numbers in the inclusive range, in order |
| Sequencer.SequencerCore.Info | sequencer/mvp/sequencer/core.go:530-553 | the row count is the chain height |
| Sequencer.SequencerCore.WaitedBlocks | sequencer/mvp/sequencer/core.go:130-138 | the smallest buffered height from the tip on below max, or -1 when there is none; of all buffered heights when they are above the tip |
| Chain.ExpiryDoesNotMatterToReplicas | sequencer/mvp/sequencer/core.go:406-426 | a message accepted with its expiry checked passes the check replicas make at any later time |
| Chain.SequencedBlockIsOperatorSigned | sequencer/mvp/sequencer/core.go:186-189 | the block a primary builds passes the operator signature checks of replicas |
| Chain.CommitKeepsWf | sequencer/mvp/sequencer/core.go:225-274 | committing a block that extends the chain keeps links and tables in step |
| Chain.DrainPasses | sequencer/mvp/sequencer/core.go:140-158 | under any operator the drain removes exactly the entries of the heights it gains and keeps the others |
| Chain.DrainStops | sequencer/mvp/sequencer/core.go:145-152 | the drain reports an error if and only if an entry for the next height is left |
| Chain.RunKeepsWf | sequencer/mvp/sequencer/core.go:106-124 | any run keeps the chain contiguous and hash-linked, the tables in step and the buffer signed |
| Chain.TablesAgreeWithChain | sequencer/mvp/sequencer/core.go:231-269 | in every reachable state both row counts equal the height and row n belongs to the block at height n |
| Chain.GetReadsTheChain | sequencer/mvp/sequencer/core.go:477-511 | Get(from, to) is the chain's bodies at the heights of that inclusive range that exist |
| Chain.StaleEntryStaysForEver | sequencer/mvp/sequencer/core.go:143-154 | an entry at or below the tip is never used, replaced or removed by any later run |
| Chain.StepKeepsBoundExactly | sequencer/mvp/sequencer/core.go:110-158 | under any operator and disk, an event keeps every buffered height above the tip unless an entry for the next height is left and the guards on the way to a new tip all pass |
| Chain.IngestsExactly | sequencer/mvp/sequencer/core.go:321-361 | the tip moves if and only if signature, height, link, body and write all pass |
| Chain.BufferBoundExactly | sequencer/mvp/sequencer/core.go:106-158 | after a run every buffered height is above the tip if and only if no event of the run overtook a buffered height |
| Chain.TipBinding | sequencer/mvp/sequencer/core.go:337-340 | two reachable nodes with equal tip hashes hold the same chain up to Block.Sig, or exhibit a hash collision |
| Chain.Accountability | sequencer/mvp/sequencer/core.go:288-340 | two replicas that disagree hold, at the least such height, two contents with the same height and previous hash, each with a signature that recovers to the operator key and verifies under it |
| Acceptance.OperatorSignedExactly | sequencer/mvp/sequencer/core.go:290-316 | the signature checks pass if and only if there is a signature, it recovers to the operator key over the block's digest, and it verifies under that key |
| Acceptance.UnsignedBlockIsRejected | sequencer/mvp/sequencer/core.go:290-316 | a block without a valid signature of the operator key has no effect, with the error for a missing signature, another signer, or an invalid one |
| Acceptance.OldBlockIsIgnored | sequencer/mvp/sequencer/core.go:321-324 | a signed block not above the tip has no effect and no error |
| Acceptance.EarlyBlockIsBuffered | sequencer/mvp/sequencer/core.go:325-335 | an early signed block is counted and buffered at its height in place of what was there; nothing else changes |
| Acceptance.NextBlockIsChecked | sequencer/mvp/sequencer/core.go:337-363 | the next block is ingested if and only if link, body, message and write are right, with the error of the first that is not; a write is attempted exactly when only it is left |
| Acceptance.ReplicaHoldsSignedBlocks | sequencer/mvp/sequencer/core.go:283-364 | every block above genesis on a reachable replica's chain and every buffered one has a valid signature of the operator key (on a primary's too if its signer is the operator) |
| Acceptance.ExpiryExactly | sequencer/mvp/sequencer/core.go:406-426 | expiry passes if and only if every condition is a time that, when times are checked, has not passed |
| Acceptance.FirstFailingCondition | sequencer/mvp/sequencer/core.go:406-426 | an expiry error is that of the first condition that fails |
| Acceptance.AcceptedExactly | sequencer/mvp/sequencer/core.go:366-433 | a message passes if and only if it is not empty, names a sender, is signed with the key it names over all its other fields, and its expiry conditions hold |
| Acceptance.VerifyErrors | sequencer/mvp/sequencer/core.go:366-433 | the error of a message that does not pass, in the order of the checks |
| Acceptance.TableHoldsSignedMessages | sequencer/mvp/sequencer/core.go:225-274 | every message in the table of a reachable node was signed by its sender |
| Acceptance.AnswerExactly | sequencer/mvp/sequencer/core.go:436-465 | `Sequence` accepts exactly a decodable, acceptable message at a primary |
| Acceptance.ExpiredExactly | sequencer/mvp/sequencer/core.go:419-421 | a well-signed message is answered as expired if and only if its first failing condition is a time that has passed |
| Acceptance.SequenceExactly | sequencer/mvp/sequencer/core.go:160-223 | after a call that is accepted and commits, table and chain grow by exactly this message and the linked, signed, announced block around it; otherwise table, tip and chain are unchanged |
| Acceptance.TableIsTheCalls | sequencer/mvp/sequencer/core.go:436-465 | the table of a primary that handled calls of `Sequence` is exactly the accepted messages whose write took effect, in the order of the calls |
| Replica.NextIsAccepted | sequencer/mvp/sequencer/core.go:337-350 | a block with the content of the honest chain's next block passes link and body checks |
| Replica.HonestBlockAccepted | sequencer/mvp/sequencer/core.go:283-364 | every block on a primary's chain is ingested by any replica at the preceding height at any later time; only a failed write keeps it out |
| Replica.BlockEventKeepsAgreement | sequencer/mvp/sequencer/core.go:110-119 | a block event keeps a replica's chain a prefix of the honest chain, with failing writes too |
| Replica.DrainKeepsTrack | sequencer/mvp/sequencer/core.go:140-158 | with an honest operator the drain keeps everything that was delivered on the chain or in the buffer, whatever its writes do |
| Replica.DrainErrsOnWriteOnly | sequencer/mvp/sequencer/core.go:140-158 | with an honest operator the drain reports an error if and only if one of its writes failed |
| Replica.DrainStopsAtFront | sequencer/mvp/sequencer/core.go:140-158 | a drain without error stops at the largest k such that 1..k were delivered |
| Replica.EventLosesExactly | sequencer/mvp/sequencer/core.go:110-119 | a validly signed block is on the chain or buffered after its event if and only if it was not the next one, unbuffered, with a failing write |
| Replica.BlockEventKeepsTrack | sequencer/mvp/sequencer/core.go:106-158 | after a block event every delivered height that no event forgot is on the chain or buffered, and nothing else is |
| Replica.BlockEventConverges | sequencer/mvp/sequencer/core.go:106-158 | with k the largest height such that 1..k had been delivered, the height becomes k + 1 if the event delivers block k + 1 and does not forget it, and k if not |
| Replica.EquivocationLeavesStaleEntry | sequencer/mvp/sequencer/core.go:149-154 | a run in which an equivocating operator leaves an entry at the tip's height in the buffer |
| Replica.FailedWriteLeavesStaleEntry | sequencer/mvp/sequencer/core.go:149-154 | a run with an honest operator in which a failed write in the drain leaves such an entry |
| Replica.FailedWriteLosesBlock | sequencer/mvp/sequencer/core.go:358-361 | a run in which an in-order block whose write fails is neither ingested nor buffered |
| Network.EveryTraceIsSafe | sequencer/mvp/sequencer/core.go:106-124 | every possible trace of the system keeps the primary's and the replicas' invariants |
| Network.PrefixSafety | sequencer/mvp/sequencer/core.go:283-364 | in every reachable state of the system each replica's chain is a prefix of the primary's in all content but Block.Sig |
| Network.EveryTraceTracks | sequencer/mvp/sequencer/core.go:321-358 | whatever its disk does, a replica has each height delivered by an event that did not forget it on its chain or in its buffer, and nothing else |
| Network.Convergence | sequencer/mvp/sequencer/core.go:106-158 | after one more block event whose drain meets no error a replica's chain is the primary's up to exactly the largest k such that 1..k had been delivered and not forgotten, and one further exactly when the event delivers k + 1 and does not forget it |
| Network.ReliableConvergence | sequencer/mvp/sequencer/core.go:106-158 | on a disk without failures the same for everything received |
| Network.SettledAtFront | sequencer/mvp/sequencer/core.go:106-158 | a replica whose last block event brought no new height and whose drain then met no error stands at that k, whatever happened elsewhere since |
| Network.OrderIndependence | sequencer/mvp/sequencer/core.go:106-158 | after any trace two such replicas that were delivered the same heights hold the same chain up to Block.Sig |
| Network.BufferAboveTip | sequencer/mvp/sequencer/core.go:130-138 | whoever signs, every buffered height at a replica exceeds its tip as long as its drains meet no error |
| Network.HonestDrainsComplete | sequencer/mvp/sequencer/core.go:140-158 | with an honest operator and successful writes no drain meets an error, so the buffer is above the tip |
| Network.ReplicaTableIsPrefix | sequencer/mvp/sequencer/core.go:225-274 | a replica's message table is a prefix of the primary's, body signatures included |
| Network.ReplicaAnswersLikePrimary | sequencer/mvp/sequencer/core.go:470-515 | Get answers alike on replica and primary for any upper bound not above the replica's height |
| Network.PrimaryTableIsTheCalls | sequencer/mvp/sequencer/core.go:106-124 | in every reachable state of the system the primary's table is exactly the accepted messages whose write took effect, in call order, whatever the network delivered |
| Network.ReplicaServesTheCalls | sequencer/mvp/sequencer/core.go:225-274 | a replica's table is a prefix of the messages accepted and written at the primary, in call order |
| Graphs.PathsListsEachPathOnce | scheduler/cmd/executer/main.go:182-189 | the list of paths between two nodes has every path, repeated edges counted, and each once |
| Graphs.CountPaths | scheduler/cmd/executer/main.go:184-189 | paths from a node are its edges to the target plus the paths of its children |
| Graphs.CountPathsByLast | scheduler/cmd/executer/main.go:182-189 | paths between two nodes are counted by their last edge as well as by their first |
| Walks.SubBatchesPartition | scheduler/cmd/executer/main.go:197-207 | sub-batches have at most 100 elements and concatenate to the batch |
| Walks.SubBatchSizes | scheduler/cmd/executer/main.go:197-207 | a batch of n makes n / 100 + 1 sub-batches, all of 100 but the last, which has the rest and may be empty |
| Walks.WeightBoundsIterations | scheduler/cmd/executer/main.go:171-233 | on a ranked graph the queue is empty after as many iterations as the weight of the queue |
| Walks.ExecutionsArePaths | scheduler/cmd/executer/main.go:175-233 | a node is executed once for each path between it and the root |
| Walks.EveryRunIsFollowed | scheduler/cmd/executer/main.go:184-231 | each execution of a dependency is followed by one of each dependent in a later sub-batch |
| Walks.LastRunFollowsDependencies | scheduler/cmd/executer/main.go:169-233 | a node's last execution comes after the last execution of everything it depends on, directly or not |
| SmallWalks.FirstRunTooEarly | scheduler/cmd/executer/main.go:169-233 | an input on which a transaction first runs in the same sub-batch as the one it depends on |
| Walks.DependentsOfRootRun | scheduler/cmd/executer/main.go:171-233 | everything that depends on the root is executed |
| Walks.ReachableCycleNeverEnds | scheduler/cmd/executer/main.go:175-233 | a reachable node that depends on itself keeps the queue filled for ever |
| Ranks.AcyclicHasRank | scheduler/cmd/executer/main.go:169-175 | every acyclic edge list has a bounded rank that grows along its dependents |
| Ranks.HaltsExactlyWithoutReachableCycle | scheduler/cmd/executer/main.go:171-233 | the walk ends if and only if no node that depends on the root depends on itself |
| Construction.ExecutionGraph.Build | scheduler/cmd/executer/main.go:122-167 | nodes, edges and last writers after the construction loop, in terms of the declared keys |
| Construction.ExecutionGraph.InsertEdges | scheduler/cmd/executer/main.go:142-166 | one transaction's edges: to the root, to the last earlier writer, or to itself for a repeated key |
| Construction.EdgeGoesBack | scheduler/cmd/executer/main.go:155-161 | every edge leads to an earlier transaction or the root; a self edge means a repeated key |
| Construction.BuiltWalkHaltsExactly | scheduler/cmd/executer/main.go:130-233 | the walk on a constructed graph ends if and only if no transaction repeats a key |
| Construction.EveryTxRuns | scheduler/cmd/executer/main.go:132-167 | every transaction is executed as often as there are paths from the root to it, at least once |
| Construction.ExecutionsAddUp | scheduler/cmd/executer/main.go:130-233 | a transaction is executed as often as everything its leaves depend on taken together, the root counting once |
| Construction.OneRunPerLeaf | scheduler/cmd/executer/main.go:151-231 | a transaction is executed at least once for each leaf it declares |
| Construction.RunsExactlyOnce | scheduler/cmd/executer/main.go:132-233 | every transaction is executed exactly once if and only if each declares at most one leaf |
| Construction.ConflictIsDependency | scheduler/cmd/executer/main.go:151-166 | of two transactions that declare a key the later one depends on the earlier one |
| Construction.ConflictsEndInOrder | scheduler/cmd/executer/main.go:130-233 | two transactions that declare a key have their last executions in sequence order |
| AsWritten.AsWrittenHaltsExactly | scheduler/cmd/executer/main.go:151-164 | with loop variable addresses as keys the walk ends if and only if each transaction declares at most one leaf |
| AsWritten.AsWrittenOrdersNothing | scheduler/cmd/executer/main.go:151-164 | with loop variable addresses as keys no transaction depends on another |
| AsWritten.AsWrittenSchedule | scheduler/cmd/executer/main.go:151-222 | with at most one leaf each, the walk as written ends and runs the transactions in groups of 100 in sequence order |
| AsWritten.AsWrittenOrdersExactly | scheduler/cmd/executer/main.go:151-222 | as written an earlier transaction ends before a later one if and only if they are in different groups of 100, whatever leaves they declare |
| AsWritten.AsWrittenSerialExactly | scheduler/cmd/executer/main.go:151-233 | as written the final state is the serial one for all effects and all orders within sub-batches if and only if no two transactions of a group of 100 declare the same leaf |
| AsWritten.AsWrittenRacesOnOneLeaf | scheduler/cmd/executer/main.go:151-222 | the smallest race: two transactions on one leaf run at the same time as written, and one after the other by leaf |
| Construction.TwoLeavesRunTwice | scheduler/cmd/executer/main.go:151-231 | a transaction with two leaves that two earlier ones declare is executed at least twice |
| Construction.TwoNewLeavesRunTwice | scheduler/cmd/executer/main.go:151-231 | a transaction with two leaves that no other one declares is executed at least twice |
| Executer.FetchAll | scheduler/cmd/executer/main.go:105-115 | the windows start at 0, have length 1000 and follow each other without a gap; they fetch every sequence number, twice exactly for multiples of 1000 below the height |
| Executer.ExecuteBatch | scheduler/cmd/executer/main.go:197-222 | the sub-batch loop executes the batch's sub-batches in order |
| Executer.EndsOnce | scheduler/cmd/executer/main.go:171-233 | a walk that ends has one outcome |
| Executer.BreadthFirst | scheduler/cmd/executer/main.go:169-233 | the queue loop terminates exactly where the walk does and computes it |
| Levels.WalkIsBreadthFirst | scheduler/cmd/executer/main.go:169-233 | a walk that ends has executed level after level, up to the first empty one |
| Levels.LevelExactly | scheduler/cmd/executer/main.go:175-233 | level k has exactly the nodes that a path of k edges leads to from the root |
| Executer.ExecuteWindow | scheduler/cmd/executer/main.go:122-233 | building and walking one window runs every transaction and ends conflicts in sequence order |
| Serial.ConflictsRunInOrder | scheduler/cmd/executer/main.go:132-222 | with at most one leaf each, of two transactions on a leaf the earlier runs in an earlier sub-batch |
| Serial.SerialEquivalence | scheduler/cmd/executer/main.go:132-233 | with at most one leaf each, any order within sub-batches ends in the state of running in sequence order |
| Serial.SerialExactly | scheduler/cmd/executer/main.go:175-233 | a schedule that runs each transaction once is serial for all effects and all orders within sub-batches if and only if it runs conflicting transactions in order |
| WholeRun.ExecuteAll | scheduler/cmd/executer/main.go:105-237 | the outer loop builds and walks one window after the other until the height is reached |
| WholeRun.ExecutedAsOftenAsFetched | scheduler/cmd/executer/main.go:105-237 | over the whole run, with at most one leaf each, a transaction is executed once, and twice exactly if its number is a multiple of 1000 below the height |
| WholeRun.ConflictsEndInOrderAcrossWindows | scheduler/cmd/executer/main.go:105-237 | over the whole run two transactions that declare a key have their last executions in sequence order, across windows too |
| WholeRun.ExecutionsOverWindows | scheduler/cmd/executer/main.go:105-237 | over the whole run a transaction is executed as often as in the windows that fetch it together, and in each as often as what its leaves depend on there |
| WholeRun.RunExecutesOnceExactly | scheduler/cmd/executer/main.go:105-237 | over the whole run every transaction is executed exactly once if and only if there are at most 1000 and each declares at most one leaf |
| SerialRun.WholeRunIsSerial | scheduler/cmd/executer/main.go:105-237 | over the whole run, with at most one leaf each, the final state is that of running what the windows fetch in order, for all effects and all orders within sub-batches |
| SerialRun.WholeRunSerialExactly | scheduler/cmd/executer/main.go:105-237 | with at most one leaf each, the whole run ends in the serial state for all effects and all orders within sub-batches if and only if no transaction at a window boundary below the height declares a leaf |
| AsWrittenRun.AsWrittenRunSerialExactly | scheduler/cmd/executer/main.go:105-237 | as written, the whole run ends in the serial state for all effects and all orders within sub-batches if and only if no transaction at a window boundary declares a leaf and no two transactions of a group of 100 of a window declare the same leaf |
| Leaves.ParseStateLeaves | scheduler/cmd/executer/main.go:42-71 | the loop gives the bytes of every line that is not empty, in order, and panics if and only if one of them does |
| Leaves.DecodesExactly | scheduler/cmd/executer/main.go:54-58 | digits are decoded to bytes if and only if they spell them, high digit first, in lower or upper case |
| Leaves.MustDecodeExactly | scheduler/cmd/executer/main.go:54-58 | a text is decoded if and only if it has the prefix 0x or 0X and an even number of digits that spell the bytes |
| Leaves.ParseLineExactly | scheduler/cmd/executer/main.go:52-65 | which lines are parsed, and the bytes each gives |
| Leaves.SplitExactly | scheduler/cmd/executer/main.go:45-52 | splitting cuts at every separator and loses nothing |
| Leaves.ParseLinesExactly | scheduler/cmd/executer/main.go:45-70 | parsing gives the bytes of every line that is not empty, in order, if and only if each of them is parsed |
| Leaves.ParseSpelled | scheduler/cmd/executer/main.go:42-71 | parsing any spelling of leaves, in any mix of cases and prefixes, gives their keys in order |
| Leaves.ParsePrinted | scheduler/cmd/executer/main.go:38-71 | parsing the documented text of any leaves gives their keys in order |
| Leaves.KeysAreDistinct | scheduler/cmd/executer/main.go:53-61 | different leaves have different keys |
| StringLayout.ExtractLengthOfEncoding | hardhat-contracts/contracts/Greeter.json:1 | `extract_byte_array_length` never fails on a canonical slot and reads the string's length |
| StringLayout.ShortEncoding | hardhat-contracts/contracts/Greeter.json:1 | `extract_used_part_and_set_length_of_short_byte_array` gives the canonical short slot whatever follows the string in memory |
| StringLayout.LastChunk | hardhat-contracts/contracts/Greeter.json:1 | the mask of `__warp_block_11` gives the canonical last word whatever follows the string in memory |
| StringLayout.ClearThenWrite | hardhat-contracts/contracts/Greeter.json:1 | clearing stale slots and writing new ones takes any canonical storage to the canonical storage of the new string |
| StringLayout.ShortSlot | hardhat-contracts/contracts/Greeter.json:1 | clearing the low byte of a short slot leaves the string filled up with zeros (`__warp_block_16`) |
| StringLayout.CanonicalIsUnique | hardhat-contracts/contracts/Greeter.json:1 | one storage is the canonical encoding of at most one string |
| Greeter.Contract.ClearSlots | hardhat-contracts/contracts/Greeter.json:1 | `__warp_loop_4` zeroes exactly the slots from start up to end |
| Greeter.Contract.CleanUp | hardhat-contracts/contracts/Greeter.json:1 | `clean_up_bytearray_end_slots_string_storage` zeroes exactly the slots the old string used and the new one does not |
| Greeter.Contract.CopyWords | hardhat-contracts/contracts/Greeter.json:1 | `__warp_loop_5` copies the full words of memory to consecutive slots |
| Greeter.Contract.CopyLastWord | hardhat-contracts/contracts/Greeter.json:1 | `__warp_block_11` writes the canonical last word and nothing else |
| Greeter.Contract.CopyTail | hardhat-contracts/contracts/Greeter.json:1 | `__warp_if_9` writes the last word exactly when the length is not a multiple of 32 |
| Greeter.Contract.CopyLong | hardhat-contracts/contracts/Greeter.json:1 | `__warp_block_10` writes all canonical slots of a long string and nothing else |
| Greeter.Contract.CopyShort | hardhat-contracts/contracts/Greeter.json:1 | `__warp_block_12` writes the canonical slot of a short string and nothing else |
| Greeter.Contract.CopyToStorage | hardhat-contracts/contracts/Greeter.json:1 | `copy_byte_array_to_storage_from_string_to_string` makes storage exactly the canonical encoding of the new string, however long the old one was |
| Greeter.Contract.FinalizeAllocation | hardhat-contracts/contracts/Greeter.json:1 | `finalize_allocation` on any two words reverts exactly when the rounded free pointer exceeds 64 bits; a size that wraps reserves nothing |
| Greeter.Contract.LoadWords | hardhat-contracts/contracts/Greeter.json:1 | `__warp_loop_3` writes the string's data words to memory and nothing else |
| Greeter.Contract.LoadContents | hardhat-contracts/contracts/Greeter.json:1 | `__warp_block_14` leaves the string's bytes in memory in either form |
| Greeter.Contract.LoadString | hardhat-contracts/contracts/Greeter.json:1 | `copy_array_from_storage_to_memory_string` returns the string last stored, and reverts only when memory runs out |
| Greeter.Contract.SetGreeting | hardhat-contracts/contracts/Greeter.sol:16-18 | the storage becomes the canonical encoding of the string, or the call reverts exactly when it does not fit memory |
| Greeter.Contract.Greet | hardhat-contracts/contracts/Greeter.sol:12-14 | it returns the string stored, reverts exactly when that does not fit memory, and never reverts after a run of calls |
| Greeter.Contract.SetAll | hardhat-contracts/contracts/Greeter.sol:16-18 | after any run of calls storage is the canonical encoding of the last string that was accepted |
| Greeter.Contract.SetAllAndGreet | hardhat-contracts/contracts/Greeter.sol:12-18 | after any run of calls `greet` returns the last string that was accepted |

## Left out

* libp2p, FloodSub, streams, node wiring, RPC servers and commands: network I/O and glue; the network is arbitrary delivery.
* keccak, ECDSA, protobuf bytes and SQLite: functions and assumptions as above. A failed transaction that the code neither commits nor rolls back may block later ones; that is a disk on which later attempts fail.
* Heights are unbounded integers; the int64 height would wrap after 2^63 blocks.
* Get with a bound of 2^63 or more, which the SQL driver refuses, and the nil result the code then closes.
* Restart on a non-empty database: the code starts at genesis without reading the tables, so nothing persists.
* Exactly-once sequencing of a message: the code has no duplicate check.
* Sequence and the work it enqueues are one step: verification reads no state that events change.
* Running the VM: a transaction is a function on its declared leaf.
* Data races and goroutine scheduling in the executer beyond any order within a sub-batch.
* Printing, timing and `GetBlocks`, which returns a constant.
* Calldata bounds checks, selector dispatch, ABI encoding of the reply, and the deployment copies of the storage functions, which are the same code: they add only easy branches.
* `research/`, `rpc/`, hardhat scripts and generated code: stubs, copies and accessors.
