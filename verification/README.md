# A verified model of the Accumen sequencer's core data structures and protocols

The project models, in Dafny, the parts of the Accumen L1 sequencer on which its blocks, its state
and its outputs to L0 depend:

- **Merkle commitments** (`Merkle`, `Receipts`): the level-by-level root builder, the proof
  generator, the proof checker, the canonical sort and the two block roots. The root loop is proved
  equal to a recursive tree, and the exact set of leaves whose generated proof the checker accepts
  is proved: those whose path meets no promoted odd node.
- **Indexed mutable structures** (`Mempool`, `ModuleCache`, `PersistentMempool`, `RoundRobin`):
  classes over shared objects, pointers, maps and lists, proved to refine maps and sequences.
- **Dependency and submission protocols** (`Dependencies`, `Staging`, `Submission`, `Submittability`): graph search
  over recorded edges, and any number of submission workers as interleaved steps over one staging
  area.
- **The WebAssembly auditor** (`Leb128`, `WasmAudit`, `WasmEncoding`): LEB128, section framing and
  the section auditors over arbitrary bytes, and what they decide about well-formed encodings.
- **Persistence and rollback** (`KeyValue`, `Snapshot`, `Contracts`, `Migration`): snapshot round
  trips, the application hash, contract versions, and all-or-nothing migration.
- **Token arithmetic** (`Token`): the example ERC-20 contract with 64-bit wrap-around, against an
  unbounded ledger, an event log and allowance accounting.

`Common`, `Bytes` and `BigEndian` hold what the others share: optional values, sequences without
repeats, the byte-string order and the big-endian encoding.
Where the source loops over variables or updates objects, the model has a method or a class with
the same branches; its contract ties it to a function, and the lemmas are about that function.

SHA-256, JSON, CBOR, protobuf and the contract code that a migration runs are unknown functions,
with a law only where a result says so. Clocks, health probes and L0's answers are parameters.

Verify everything with `dafny verify dfyconfig.toml`.

## Results that contradict the code's intent

Each is proved of the code as it stands, beside the condition under which the intended property
holds.

- An included transaction is rejected by `VerifyTxInclusion` whenever its path meets a promoted
  odd node (`Receipts.InclusionBoundary`; three leaves, the last one, in
  `Receipts.ThreeLeavesRejectTheLast`). Rejection is stated for hash functions without collisions
  on the strings of that run, and for leaves that are not inner digests. `Receipts.SampleIsIdeal`
  meets these premises at 32-byte digests for three leaves, and `Receipts.FreeHashIsIdeal` for
  every list over free terms. Acceptance needs no premise.
- `evictLRU` takes the list for a circular one, but `head.prev` is nil in every reachable cache, so
  a `Put` of a new key at capacity panics (`ModuleCache.Cache.Put`). `PutRepaired` and `EvictTail`
  are a repair, not the source: they evict through the tail sentinel, which the source drops.
- A worker's "already being processed" check has no compare-and-set, so two workers can submit one
  output twice, and a call whose reply is lost counts as failed, so even one worker can
  (`Submission.OneLostReplySubmitsTwice`). At-most-once submission holds exactly for a single worker
  that loses no reply; that an output is repeated only after lost replies holds exactly for a single
  worker (`Submission.AtMostOnceMeansOneWorker`). An output whose dependency was cleaned up is never
  submitted (`Submittability.CleanupStrandsDependent`); exactly which outputs still can be is
  `Submittability.SubmittableExactly`.
- A rejected dependency edge stays recorded, for good if it closes a cycle, and a later search
  through it may never end (`Dependencies.RejectedEdgesPoison`); exactly when a search ends is
  `Dependencies.SearchEndsExactly`.
- A module deployed without a version, at an address that ends like a version key, overwrites
  another contract's version (`Contracts.DeploymentClobbers`), and a version can overwrite such a
  module (`Contracts.VersionOverwrites`).
- The auditor's limits hold for each section, and sections may be repeated: an accepted module can
  have any number of exports (`WasmEncoding.AnyNumberOfExports`).
- Stores with different content can have the same application hash, because keys and values run
  together (`Snapshot.AppHashCollides`).
- `discover` does not re-establish the bound of `current`; after the list has shrunk, `Next`
  panics exactly as `RoundRobin.Endpoints.DiscoverThenNext` says.
- `AddTransaction` divides by a zero transaction size when priorities are enabled
  (`Mempool.Mempool.AddTransaction`, outcome `DivideByZero`).
- `transfer_from` reads the recipient's balance before the debit, so a transfer from an account to
  itself creates tokens (`Token.SelfTransferFromInflates`); with a mint past 2^64 it is the only way
  to break conservation (`Token.CallConserves`).

## Model

| member | source | states |
|---|---|---|
| Merkle.RootIsTreeRoot | engine/state/receipt.go:326-363 | For every non-empty list and any pair hash, repeated level passes with odd-node promotion give the recursive tree that splits at the largest power of two below the length (section 2.1 of RFC 6962, without prefixes) |
| Merkle.DepthOfSplit | engine/state/receipt.go:341-362 | The split point is a power of two, one level below the tree's depth, and the right part is no deeper |
| Merkle.ProofIsTreeProof | engine/state/receipt.go:439-483 | The proof collected level by level is the recursive audit path, nearest sibling first |
| Merkle.DepthIsLeast | sequencer/loop.go:850-861 | The number of level passes is the least d with n at most 2^d |
| Merkle.ProofLength | engine/state/receipt.go:439-483 | A generated proof has one entry per level pass, less one for each promotion on its path |
| Merkle.PromotionFreeSizes | engine/state/receipt.go:472-475 | No leaf of an n-leaf list meets a promotion exactly when n is a power of two |
| Merkle.FullProofChecks | engine/state/receipt.go:486-506 | On any subtree, a proof with an entry for every level makes the checker reproduce the subtree's root, for every hash function |
| Merkle.ShortProofFails | engine/state/receipt.go:486-506 | On any subtree, a proof shortened by a promotion makes the checker end at a different value, given collision-freeness on the pairs hashed and no leaf that is an inner digest |
| Merkle.PromotionFreeChecks | engine/state/receipt.go:439-506 | Fed the generated proof of a path without promotions, the checker returns the root, for every hash function |
| Merkle.CheckBoundary | engine/state/receipt.go:439-506 | Exact boundary: if the pairs hashed in the run do not collide and no leaf is one of their hashes, the checker fed the generated proof returns the root if and only if the path meets no promotion |
| Merkle.RootBinds | engine/state/receipt.go:326-363 | Equal roots mean equal lists, lengths included, unless hashed pairs collide or, for lists of different lengths, a leaf is an inner digest |
| Receipts.MerkleRoot | engine/state/receipt.go:326-363 | The loop returns the recursive tree's root, the zero hash for no leaves, after exactly as many passes as the depth |
| Receipts.GenerateMerkleProof | engine/state/receipt.go:439-483 | The loop returns the path function's proof for every list and index |
| Receipts.VerifyMerkleProof | engine/state/receipt.go:486-506 | The loop returns the checker function's value for any proof and index |
| Receipts.VerifyTxInclusion | engine/state/receipt.go:395-436 | Uses the first occurrence of the hash, returns its proof, and answers whether the checker reaches the given root; an absent hash gives no proof and false |
| Receipts.PromotionFreeAccepts | engine/state/receipt.go:395-436 | An included hash whose path meets no promotion is accepted against the true root, whatever the hash function |
| Receipts.InclusionBoundary | engine/state/receipt.go:395-436 | For a hash function ideal on the run's strings, an included hash is accepted against the true root if and only if its path meets no promotion |
| Receipts.PowerOfTwoBlocksAccept | engine/state/receipt.go:395-436 | In a power-of-two block every included hash is accepted, whatever the hash function |
| Receipts.FreeHashIsIdeal | engine/state/receipt.go:350-353 | For every list and index the boundary's premises hold of the free pair hash over terms |
| Receipts.SampleIsIdeal | engine/state/receipt.go:395-436 | They also hold at the bytes: for three 32-byte leaves and a hash with 32-byte values, which therefore rejects the last leaf |
| Receipts.ThreeLeavesRejectTheLast | engine/state/receipt.go:472-475 | For every hash function and three leaves, the last unlike the others, the last is accepted if and only if the hash does not tell the two orders of the final pair apart |
| Merkle.CheckSound | engine/state/receipt.go:486-506 | Soundness: for any proof and index, a value from which the checker reaches the root of a range is a leaf of the range, given an ideal hash on the run and that the value is no inner digest |
| Receipts.AcceptedIsIncluded | engine/state/receipt.go:395-436 | With a hash ideal on the run, VerifyTxInclusion accepts against the root of any non-empty list only a hash of that list, from whatever list the proof is generated |
| Receipts.EmptyRootAcceptsZero | engine/state/receipt.go:328-331 | The list must be non-empty: the empty list's root is 32 zero bytes, and the zero hash is accepted against it |
| Receipts.CalculateMerkleDepth | sequencer/loop.go:850-861 | For n at least 1 the result is the number of level passes and the least d with n at most 2^d; 0 below that |
| Bytes.LessTrichotomy | engine/state/receipt.go:511-517 | The comparator is irreflexive and asymmetric, and any two byte strings compare or are equal |
| Bytes.LessTransitive | engine/state/receipt.go:511-517 | The comparator is transitive |
| Bytes.LessExactly | engine/state/receipt.go:511-517 | A proper prefix comes first; otherwise the first byte that differs decides |
| Bytes.SortedUnique | engine/state/receipt.go:509-519 | A multiset of byte strings has one sorted order |
| Receipts.SortTxResults | engine/state/receipt.go:509-519 | In place: sorted by transaction hash, and a permutation of what was there |
| Receipts.ComputeTxsRoot | engine/state/receipt.go:366-377 | The root over the transaction hashes in the order given |
| Receipts.ComputeResultsRoot | engine/state/receipt.go:380-391 | The root over the hashes of the marshalled results in the order given |
| Receipts.BlockRoots | sequencer/loop.go:1377-1382 | Sort, then commit: both roots are those of the sorted results |
| Receipts.RootsIgnoreArrivalOrder | sequencer/loop.go:1377-1382 | The transactions root is the same for every arrival order; with distinct hashes so are the sorted list and the results root |
| Receipts.SharedHashKeepsOrder | engine/state/receipt.go:509-519 | The distinctness is needed: two results for one hash are sorted both ways, and commit to different lists unless their own hashes agree |
| Mempool.Mempool.constructor | sequencer/mempool.go:63-72 | An empty pool satisfies the invariant: priority list a duplicate-free permutation of the map in descending order, account lists partition it by sender with none empty, total size the sum modulo 2^64, limits hold |
| Mempool.Mempool.AddTransaction | sequencer/mempool.go:112-148 | Exactly which transactions are refused, and why, leaving the pool and the transaction as they were; an accepted one is priced by gas price, gas limit, size and age, and enters all three indexes, after every transaction of equal or higher priority and before the rest; the invariant is kept |
| Mempool.Mempool.CheckRefused | sequencer/mempool.go:297-345 | On the fields of transaction, pool and configuration: which check refuses, the checks in their order |
| Mempool.Mempool.SearchBelow | sequencer/mempool.go:366-368 | Binary search in a descending list finds the first position of lower priority |
| Mempool.Mempool.InsertByPriority | sequencer/mempool.go:364-374 | Keeps descending order and places the transaction after all equal ones |
| Mempool.Mempool.RemoveTransaction | sequencer/mempool.go:151-188 | Fails exactly on an unknown identifier; otherwise that transaction leaves all three indexes, an emptied account list goes, and the invariant is kept |
| Mempool.Mempool.Cleanup | sequencer/mempool.go:391-438 | Exactly the transactions older than the TTL leave all three indexes, the rest keep their order, and the invariant is kept |
| Mempool.Mempool.Flush | sequencer/mempool.go:441-451 | Empties every index and the total size, and keeps the invariant |
| Mempool.Mempool.UpdatePriorities | sequencer/mempool.go:463-476 | Every transaction is repriced, the list is the same multiset in descending order, the invariant is kept, and no division by zero can happen |
| Mempool.Mempool.GetTopTransactions | sequencer/mempool.go:221-238 | Returns min(count, size) stored transactions, a prefix of the list that no omitted transaction outranks |
| Mempool.SameCount | sequencer/mempool.go:229-231 | The priority list and the map always have the same number of transactions |
| Mempool.DropPartitions | sequencer/mempool.go:165-172 | Cutting an identifier from its sender's list keeps the partition by sender |
| Mempool.DropPermutes | sequencer/mempool.go:174-180 | Cutting an identifier from the list keeps it a permutation of the map and takes its size off the sum |
| Mempool.KeepOneLess | sequencer/mempool.go:405-430 | Cutting out one more expired identifier is the same as filtering by one more, so the loop is a filter |
| ModuleCache.Cache.constructor | engine/runtime/cache.go:60-78 | Empty cache with its sentinels linked; a size of 0 or less becomes 16 |
| ModuleCache.Cache.Get | engine/runtime/cache.go:123-138 | A hit returns the stored module, moves its key to the front and counts; a miss changes only the count; list and map stay in bijection |
| ModuleCache.Cache.MoveToFront | engine/runtime/cache.go:173-180 | The pointer surgery moves exactly that key to the front of the sequence and keeps the list well linked |
| ModuleCache.Cache.AddToFront | engine/runtime/cache.go:183-188 | A new node is linked in directly after the head |
| ModuleCache.Cache.EvictLRU | engine/runtime/cache.go:191-210 | As written: panics when the head has no predecessor, changing nothing in the map |
| ModuleCache.Cache.Put | engine/runtime/cache.go:141-168 | As written: panics exactly for a new key at capacity; any other Put stores the module at the front and keeps the invariant, in which head.prev is nil |
| ModuleCache.Cache.EvictTail | engine/runtime/cache.go:191-210 | Repair: drops exactly the last key of the sequence from list and map |
| ModuleCache.Cache.PutRepaired | engine/runtime/cache.go:141-168 | With the repair Put never fails, never exceeds maxSize and evicts the last key |
| ModuleCache.Cache.Clear | engine/runtime/cache.go:236-257 | Empty cache with fresh sentinels and zeroed counters |
| ModuleCache.Cache.ValueConsistent | engine/runtime/cache.go:123-210 | In every valid cache the list's keys are distinct and exactly the map's |
| ModuleCache.HoldsMostRecent | engine/runtime/cache.go:123-210 | Over every run of Get, Put and Clear the repaired cache holds exactly the maxSize most recently used keys, in order, each with the module last put for it |
| ModuleCache.RunRepaired | engine/runtime/cache.go:123-210 | Any run of Get, repaired Put and Clear on a new cache object ends in the state that theorem is about |
| ModuleCache.TopOfTouch | engine/runtime/cache.go:141-168 | Touching a key commutes with keeping the n most recent keys |
| ModuleCache.SourceRunsWhileThereIsRoom | engine/runtime/cache.go:152-155 | Without the repair a run goes through exactly when no more than maxSize keys are ever in use between two Clears, and then agrees with the repaired cache |
| ModuleCache.RunSource | engine/runtime/cache.go:123-210 | Any run on a new cache object with Put as written ends in the state that theorem is about, or panics exactly where it says |
| PersistentMempool.Mempool.Add | sequencer/mempool_persist.go:59-121 | Refuses invalid and present transactions, changing nothing; a new one goes to the end of the queue under a number never used before, with database and queue still in correspondence; once all 64-bit numbers are used up it gets 0 and its key comes before all the others |
| PersistentMempool.Mempool.Remove | sequencer/mempool_persist.go:166-204 | Fails exactly on an absent hash; otherwise that transaction leaves queue and index, the others keep order and numbers, and the counter stays |
| PersistentMempool.Mempool.Next | sequencer/mempool_persist.go:124-163 | The first n live transactions in insertion order |
| PersistentMempool.Mempool.Count | sequencer/mempool_persist.go:257-274 | The number of live transactions |
| PersistentMempool.Mempool.GetNextSequence | sequencer/mempool_persist.go:295-328 | One more than the stored counter modulo 2^64, stored back; an error, changing nothing, for a counter that is not eight bytes |
| PersistentMempool.AddStores | sequencer/mempool_persist.go:81-112 | The three writes of an Add turn the database of a queue into that of the longer queue, with no stray key |
| PersistentMempool.RemoveStores | sequencer/mempool_persist.go:190-201 | The two deletes of a Remove turn it into that of the shorter queue |
| PersistentMempool.IterationIsQueue | sequencer/mempool_persist.go:131-138 | Byte order of the pending keys is insertion order |
| PersistentMempool.IndexTellsPresence | sequencer/mempool_persist.go:277-292 | A hash is indexed exactly when a live transaction has it |
| BigEndian.EncodeOrder | sequencer/mempool_persist.go:331-336 | Big-endian byte order is numeric order |
| BigEndian.DecodeEncode | sequencer/mempool_persist.go:331-336 | The eight-byte encoding of any number below 2^64 reads back |
| RoundRobin.RoundIsFair | internal/l0/endpoints.go:133-168 | While k of n endpoints are healthy and stay so, k consecutive calls return each healthy endpoint exactly once, in cyclic order from the pointer |
| RoundRobin.CallRepeatedly | internal/l0/endpoints.go:133-168 | Calls in a row on the object, while no health changes, choose the endpoints and leave the pointer that theorem is about |
| RoundRobin.CallsFollowScan | internal/l0/endpoints.go:141-153 | Successive calls return the healthy positions in the order one walk meets them |
| RoundRobin.ScanMeets | internal/l0/endpoints.go:141-153 | A walk meets every healthy position ahead of it exactly once |
| RoundRobin.Endpoints.Next | internal/l0/endpoints.go:133-168 | Returns the first endpoint from the pointer on that is healthy or past its retry time, all it passes over being unhealthy and not past theirs, and moves the pointer past it; with none such, the first of fewest failures with the pointer unchanged; errors only on an empty list and panics only on a pointer out of range |
| RoundRobin.Endpoints.ReportFailure | internal/l0/endpoints.go:187-200 | Only the first endpoint of that URL is marked unhealthy, with one more failure and a retry time |
| RoundRobin.FailThenCall | internal/l0/endpoints.go:187-200 | A run: after a reported failure no call up to the end of the backoff chooses that endpoint while another is healthy, and a first call after it with the pointer there does |
| RoundRobin.Endpoints.Discover | internal/l0/endpoints.go:224-271 | The list is replaced in the order discovered, known URLs keep their records, new ones start healthy without failures, and the pointer stays |
| RoundRobin.Endpoints.DiscoverThenNext | internal/l0/endpoints.go:242-270 | The call after a discovery panics exactly when the new list is not empty and does not reach the pointer |
| RoundRobin.ShrinkAfterCall | internal/l0/endpoints.go:133-168 | A run from a new object that panics: two endpoints, one call, a discovery of one of them; the object then has one endpoint, which the first call chose, and a pointer past it |
| Dependencies.Verifier.HasCircularDependency | bridge/outputs/verify.go:341-360 | The recursive method computes the search function, with a stack bound standing for non-termination |
| Dependencies.SearchDecides | bridge/outputs/verify.go:341-360 | If the graph without the output's own edges is acyclic, the search ends and is true exactly when the output is reachable from the target |
| Dependencies.SearchEndsExactly | bridge/outputs/verify.go:341-360 | For every target other than the output (the callers test for it first, lines 299 and 351), the search ends within some stack if and only if the target is clear (no way to the output, no cycle behind it) or a walk that leaves only clear dependencies behind it meets the output; it answers false in the first case and true in the second |
| Dependencies.VerifyEndsExactly | bridge/outputs/verify.go:275-315 | On any recorded graph a whole call returns if and only if it searches nothing or its dependencies are clear up to one that decides |
| Dependencies.Verifier.CheckDependencyDepth | bridge/outputs/verify.go:318-338 | The recursive method computes the depth function |
| Dependencies.DepthOkExactly | bridge/outputs/verify.go:318-338 | The depth check passes exactly when no chain of more than maxDepth edges is recorded from the output |
| Dependencies.Verifier.VerifyDependencies | bridge/outputs/verify.go:275-315 | Verdict and graph left behind, edges recorded before the search and kept on rejection |
| Dependencies.VerifyDecides | bridge/outputs/verify.go:275-315 | A non-empty dependency list is accepted exactly when no over-long chain is recorded, no dependency is empty and recording closes no cycle |
| Dependencies.VerdictTellsAcyclic | bridge/outputs/verify.go:275-315 | From an acyclic graph an accepted call keeps it acyclic, and a cycle verdict leaves a cycle recorded |
| Dependencies.VerdictTells | bridge/outputs/verify.go:287-310 | Which dependency decides and with which verdict: the first that is empty, is the output or depends on it |
| Dependencies.CyclesArePermanent | bridge/outputs/verify.go:283-290 | A recorded cycle stays recorded: no output on it passes the depth check again |
| Dependencies.RunsStayAcyclic | bridge/outputs/verify.go:275-360 | Over every run from an acyclic graph, the final graph is acyclic if and only if no call that passes the depth check names its output or something that depends on it by then |
| Dependencies.RunsEnd | bridge/outputs/verify.go:275-360 | Over every such run each search ends and no call is rejected for a cycle |
| Dependencies.RejectedEdgesPoison | bridge/outputs/verify.go:287-309 | That condition is needed: after a rejected self-dependency, a later search never ends |
| Staging.OutputStager.StageOutput | bridge/outputs/stage.go:128-173 | Refuses exactly a missing envelope and a full area; otherwise, field by field, a pending output without dependencies, with the configured expiry and retries where none are given, under a fresh identifier |
| Staging.OutputStager.UpdateOutputStatus | bridge/outputs/stage.go:189-207 | Overwrites the status unconditionally, sets the submission time on Submitted, fails exactly on an absent output |
| Staging.OutputStager.GetReadyOutputs | bridge/outputs/stage.go:210-226 | Every pending or ready output with all dependencies staged and submitted, once |
| Staging.OutputStager.AreDependenciesSatisfied | bridge/outputs/stage.go:229-237 | True exactly when every dependency is staged and submitted |
| Staging.OutputStager.MarkOutputFailed | bridge/outputs/stage.go:240-264 | One more retry; then failed if and only if the retries have reached the limit, and pending if and only if they have not; nothing else changes |
| Staging.OutputStager.RemoveStagedOutput | bridge/outputs/stage.go:267-277 | Removes that output only, and fails exactly on an absent one |
| Staging.OutputStager.SetDependency | bridge/outputs/stage.go:377-399 | Both outputs must be staged; a dependency is added at the end, at most once, and nothing else changes |
| Staging.OutputStager.Cleanup | bridge/outputs/stage.go:330-364 | Removes exactly what is past its expiry, was submitted more than an hour ago, or failed with its retries used up; the rest stay as they are |
| Submission.StepKeepsInv | bridge/outputs/submit.go:190-227 | Every step of every worker, caller and cleanup, lost replies included, keeps the invariant: accepted submissions come after accepted ones of their dependencies, and so for every batch still in hand |
| Submission.SubmittedAfterDependencies | bridge/outputs/submit.go:190-227 | In every interleaving of any number of workers, an accepted submission comes after one of each dependency the output had when batched |
| Submission.BlockedForever | bridge/outputs/stage.go:210-237 | Outputs outside every batch that wait for one another, for something gone, or have failed for good are never submitted by a worker, whatever happens next |
| Submission.CyclesNeverSubmitted | bridge/outputs/stage.go:210-237 | A dependency cycle none of whose members has been batched or submitted is never submitted |
| Submittability.SubmittableExactly | bridge/outputs/submit.go:190-227 | From every state with idle workers, some continuation has a worker submit an issued output if and only if there is an order of outputs, each pending or ready and depending only on submitted and earlier ones, that contains it |
| Submittability.RunsStayIssued | bridge/outputs/stage.go:377-399 | Every run keeps the premise of the exact condition: what is staged, and what it depends on, has been issued |
| Submission.LostDependencyBlocks | bridge/outputs/stage.go:330-364 | Busy workers included, an output one of whose dependencies has left the area is never submitted, if neither is in a batch |
| Submittability.CleanupStrandsDependent | bridge/outputs/stage.go:330-364 | A concrete run, step by step: two outputs, the second depending on the first, which is submitted and cleaned up; the second stays pending and can never be submitted |
| Submission.OneWorkerSubmitsOnce | bridge/outputs/submit.go:190-227 | In every run a single worker submits an output again only after submissions whose replies were lost; in a run that loses none, each output at most once |
| Submission.OneLostReplySubmitsTwice | bridge/outputs/submit.go:208-240 | The failing run of a single worker: L0 accepts an output, the reply is lost, the call fails, the output is pending again and the worker submits it a second time |
| Submission.TwoWorkersMaySubmitTwice | bridge/outputs/submit.go:200-206 | For any two workers there is a run, without a lost reply, that submits an output twice |
| Submission.AtMostOnceMeansOneWorker | bridge/outputs/submit.go:88-240 | At-most-once submission in every run holds if and only if there is one worker and no reply is lost; that only lost replies lead to a repetition holds if and only if there is one worker |
| Submission.OutputSubmitter.ProcessReadyOutputs | bridge/outputs/submit.go:190-227 | One uninterrupted pass: a batch of ready outputs up to the limit, each accepted or failed in turn |
| Submission.PassIsRun | bridge/outputs/submit.go:190-227 | That pass, over any batch, outputs that are gone by then included, is a protocol run of that worker's own steps only, with the same area and the same submissions in order |
| Submission.LastFailureIsFinal | bridge/outputs/stage.go:250-261 | Once a worker has recorded a failure at an output's last retry, no continuation submits it, if no other worker holds it |
| Submittability.FailedMaySubmitExactly | bridge/outputs/stage.go:250-261 | After a recorded failure, with the other workers idle and its dependencies submitted, an output can still be submitted if and only if it has a retry left |
| Submission.LeftNeverSubmitted | bridge/outputs/stage.go:267-364 | An output no worker holds that is removed, cleaned up as expired, or dropped on closing is never submitted |
| Submission.MarkExcludesOthers | bridge/outputs/submit.go:203-206 | What the mark does give: an output that one worker alone holds when marking it is neither taken nor submitted by another until the first has recorded a result |
| Submission.RunsStayWithinCapacity | bridge/outputs/stage.go:135-138 | No run holds more outputs than the configured maximum |
| Leb128.ReadULEB128 | engine/runtime/audit.go:724-748 | The loop returns the value and length of the reading function, with 32-bit wrap-around and the failure result |
| Leb128.ReadEncoded | engine/runtime/audit.go:724-748 | Round trip: the shortest encoding of every 32-bit value is read back, whatever follows, in at most 5 bytes |
| Leb128.ReadBounds | engine/runtime/audit.go:724-748 | On any input at most 5 bytes and never more than there are; fails exactly on empty input and on five continuation bytes |
| Leb128.ReadValue | engine/runtime/audit.go:724-748 | Any readable bytes, padded ones included, are read as the sum of their 7-bit groups modulo 2^32, up to the first byte without a continuation bit or the end of the input |
| WasmAudit.AuditWASMModule | engine/runtime/audit.go:145-237 | On every byte string terminates in bounds with the report of the section parsers |
| WasmAudit.AuditTypeSection | engine/runtime/audit.go:240-300 | Accepts exactly the counted vectors of function types without floats |
| WasmAudit.AuditImportSection | engine/runtime/audit.go:303-414 | Accepts exactly at most 32 imports, all from the host namespace and well described |
| WasmAudit.AuditReport.AuditMemorySection | engine/runtime/audit.go:417-467 | Accepts exactly at most one memory within the page limit, and leaves its page count in the report |
| WasmAudit.AuditTableSection | engine/runtime/audit.go:470-520 | Accepts exactly the counted vectors of tables within the size limit |
| WasmAudit.AuditReport.AuditExportSection | engine/runtime/audit.go:523-573 | Accepts exactly at most 64 exports of a known kind, and appends the names read to the report |
| WasmAudit.AuditCodeSection | engine/runtime/audit.go:576-601 | Accepts exactly the counted vectors of sized bodies that each pass the body check |
| WasmAudit.AuditFunction | engine/runtime/audit.go:639-701 | Accepts exactly the bodies without float locals, without a byte of the forbidden table and without a bulk-memory pair at any position |
| WasmAudit.AuditCustomSection | engine/runtime/audit.go:604-636 | Refuses exactly an unreadable name and one that contains a forbidden name |
| WasmEncoding.TypesDecided | engine/runtime/audit.go:240-300 | An encoded list of function types is accepted exactly when all have the form of a function type and no parameter and no result is f32 or f64 |
| WasmEncoding.ImportsDecided | engine/runtime/audit.go:303-414 | Encoded imports are accepted exactly when at most 32 and all from the host namespace; one of an unknown kind is taken to have no descriptor |
| WasmEncoding.TablesDecided | engine/runtime/audit.go:470-520 | Encoded tables are accepted exactly when each is within the limit |
| WasmEncoding.MemoryDecided | engine/runtime/audit.go:417-467 | An encoded memory is accepted exactly when within 256 pages, and the report carries the last of its limits that is |
| WasmEncoding.MemoryCount | engine/runtime/audit.go:417-431 | No memory is accepted, more than one is not, and neither touches the page count |
| WasmEncoding.ExportsDecided | engine/runtime/audit.go:523-573 | Encoded exports are accepted exactly when at most 64 and of known kinds, and then the report gains exactly their names in order; a refused section leaves the names up to the first of an unknown kind |
| WasmEncoding.CodeDecided | engine/runtime/audit.go:56-125 | Encoded bodies are accepted exactly when none declares a float local or holds, at any position, a byte of the listed table, a SIMD or thread prefix, or a bulk-memory pair |
| WasmEncoding.ModuleDecided | engine/runtime/audit.go:145-237 | For the header followed by any sequence of framed sections, Ok is the conjunction of the section auditors |
| WasmEncoding.OtherKindsIgnored | engine/runtime/audit.go:199-228 | A section of a kind without an auditor changes nothing in the report, wherever it stands and whatever it holds |
| WasmEncoding.HeaderNeeded | engine/runtime/audit.go:152-171 | Bytes that do not begin with the header are refused unread |
| WasmEncoding.BrokenSectionRefused | engine/runtime/audit.go:183-195 | A section whose size is unreadable or more than what is left is refused, with the sections before it reported |
| WasmEncoding.CustomDecided | engine/runtime/audit.go:604-636 | A custom section is accepted exactly when no forbidden text stands in its name, whatever follows the name; an empty one is, one with its name cut short is not |
| WasmEncoding.CountedItemsNeeded | engine/runtime/audit.go:240-601 | A section that ends after a count other than 0 is refused |
| WasmEncoding.ExportLimitIsPerSection | engine/runtime/audit.go:199-228 | A module of any number of export sections is accepted if and only if each section alone is, and then the report lists the exports of all of them in order |
| WasmEncoding.AnyNumberOfExports | engine/runtime/audit.go:199-228 | For every n there is an accepted module with n exports |
| KeyValue.Store.Put | engine/state/kv.go:61-75 | Stores a value under a non-empty key and refuses the empty one |
| KeyValue.Store.Delete | engine/state/kv.go:78-88 | Removes a non-empty key only |
| KeyValue.Store.Clear | engine/state/snapshot.go:352-371 | Collecting and then deleting every key leaves the empty store |
| Snapshot.WriteSnapshot | engine/state/snapshot.go:82-140 | The file is a header with the true key count and then every entry once, in some iteration order |
| Snapshot.SnapshotLayout | engine/state/snapshot.go:82-140 | That file byte for byte: the header's length, little-endian, and the header, then each entry with its two lengths where the one before it ends, and nothing after the last |
| Snapshot.SnapshotIterator.Next | engine/state/snapshot.go:34-65 | End after the announced number of entries, an error on a truncated one, else the next entry and the rest of the input |
| Snapshot.ReadSnapshot | engine/state/snapshot.go:143-180 | An iterator over what follows the header, or an error on an unreadable one |
| Snapshot.RestoreFromSnapshot | engine/state/snapshot.go:313-349 | Succeeds exactly when header and all announced entries are readable, and then the store holds exactly those; an unreadable header changes nothing, and otherwise a failure leaves the entries up to the first bad one |
| Snapshot.RoundTrip | engine/state/snapshot.go:82-180 | For every store with keys and values under 2^32 bytes and every iteration order, the file, whatever follows it, restores to exactly that store |
| Snapshot.TruncatedRefused | engine/state/snapshot.go:34-65 | Entries cut short anywhere are refused, and the restore has by then put exactly the entries before the one cut |
| Snapshot.EmptyKeyRefused | engine/state/snapshot.go:313-349 | An entry with an empty key ends the restore with an error |
| Snapshot.GenerateAppHash | sequencer/loop.go:165-195 | The hash of bytes in which every key stands with its value right after those of all smaller keys, and there is nothing else |
| Snapshot.SameShapeTells | sequencer/loop.go:165-195 | Two stores with the same keys and equally long values agree under every hash function if and only if they are equal |
| Snapshot.AppHashUnique | sequencer/loop.go:165-195 | One application hash per store content, whatever the iteration order |
| Snapshot.AppHashTells | sequencer/loop.go:165-195 | Two stores agree under every hash function if and only if their keys and values, in key order, run together to the same bytes |
| Snapshot.AppHashCollides | sequencer/loop.go:165-195 | Different stores can: 1 to 2 3 and 1 2 to 3 have one application hash under every hash function |
| Snapshot.SnapshotAndRestore | engine/state/snapshot.go:313-349 | Writing one store and restoring into any other succeeds, gives the same content and the same application hash |
| Contracts.ContractStore.SaveVersion | engine/state/contracts/store.go:132-221 | Exactly which modules are refused, a hash already listed among them; a new one is stored under the next number, listed last with its hash and time, inactive, and a refusal changes nothing |
| Contracts.ContractStore.GetVersionModule | engine/state/contracts/store.go:305-367 | The stored bytes of that version, or an error when record, version or bytes are missing or the hash disagrees |
| Contracts.ContractStore.ActivateVersion | engine/state/contracts/store.go:224-272 | Fails, changing nothing, exactly when record or version is missing; otherwise flags that version alone |
| Contracts.ContractStore.ActiveVersionMeta | engine/state/contracts/store.go:275-302 | The flagged entry of the active version, or none |
| Contracts.WasmKeyInjective | engine/state/contracts/store.go:191-196 | No two versions of any two contracts share a module key, whatever their addresses contain |
| Contracts.DigitsValue | engine/state/contracts/store.go:191-196 | The number in a key is written in base ten without leading zeros |
| Contracts.SavedLoads | engine/state/contracts/store.go:191-218 | A saved version loads as the bytes saved, and no other version of any contract loads differently than before |
| Contracts.ActivationIsSound | engine/state/contracts/store.go:239-271 | After an activation exactly one version is active, it is the requested one and the one looked up, numbering is kept and other contracts are untouched |
| Contracts.ContractStore.SaveModule | engine/state/contracts/store.go:69-129 | Refuses a bad address or size, changing nothing; else writes metadata and bytes under the address's two unversioned keys |
| Contracts.ContractStore.DeleteModule | engine/state/contracts/store.go:489-519 | Removes those two keys only |
| Contracts.OpCoherent | engine/state/contracts/store.go:69-271 | One operation keeps every listed version loading if and only if it does not write or delete an unversioned module at an address that reads as a listed version's address and number, with another hash |
| Contracts.RunsStayCoherent | engine/state/contracts/store.go:69-271 | Over every run of saves, activations, deployments and deletions, records stay numbered 1 to the latest with at most the active one flagged and every listed version loading, if and only if no operation does that; runs of saves and activations always do |
| Contracts.DeploymentClobbers | engine/state/contracts/store.go:119-126 | The failing input: a deployment of other bytes at the address followed by ":v1" stops version 1 of that contract from loading |
| Contracts.ContractStore.GetModule | engine/state/contracts/store.go:396-452 | The bytes deployed at an address, or an error when metadata or bytes are missing, the metadata is unreadable or the hash disagrees |
| Contracts.DeployedAfter | engine/state/contracts/store.go:69-452 | What GetModule finds at any address after any operation: the bytes just deployed, nothing after a deletion, otherwise what it found before, except where a saved version's bytes have gone under the module's key |
| Contracts.RunsKeepModules | engine/state/contracts/store.go:69-452 | Over every run, every module deployed and not deleted keeps loading if and only if no version is saved, with another hash, under its key |
| Contracts.VersionOverwrites | engine/state/contracts/store.go:191-196 | The failing input: the first version of a contract stops the module from loading that is deployed at its address followed by ":v1", unless their hashes agree |
| Migration.ExecutionEngine.CreateStateSnapshot | sequencer/exec.go:1142-1173 | A copy of every key and value |
| Migration.ExecutionEngine.RestoreStateSnapshot | sequencer/exec.go:1176-1210 | Whatever the store held, it ends as the snapshot |
| Migration.ExecutionEngine.ProcessStagedOperations | sequencer/exec.go:1213-1242 | Succeeds exactly when every operation is an event or a put or delete of a non-empty key; then every key holds the value of its last put, is gone if its last is a delete, and is as before if none writes it |
| Migration.AppliedEnds | sequencer/exec.go:1213-1242 | That, of the function the method is tied to, for every list of operations and every key |
| Migration.MigratedExactly | sequencer/exec.go:1054-1139 | A migration goes through if and only if the version loads, the run succeeds, its operations are all supported and the contract then has the version; other keys end as the run and its operations leave them |
| Migration.ExecutionEngine.ExecuteMigrationTransaction | sequencer/exec.go:1099-1139 | Succeeds exactly when run and operations do, and then the store holds the run's writes with the operations applied |
| Migration.ExecutionEngine.ExecuteMigration | sequencer/exec.go:1054-1096 | All or nothing: on any failure the whole store equals its prior content, on success it is the migrated table with the version activated |
| Migration.MigrationActivates | sequencer/exec.go:1086-1093 | After a success exactly one stored version is active, the requested one, and a migration that leaves the record alone keeps its numbering |
| Token.TokenState.Initialize | sdk/rust/examples/erc20/src/lib.rs:121-128 | Resets supply, balances and allowances |
| Token.TokenState.Mint | sdk/rust/examples/erc20/src/lib.rs:189-209 | Supply and recipient grow by the amount modulo 2^64, whoever calls, and a transfer from the empty account is logged; nothing else changes |
| Token.TokenState.Burn | sdk/rust/examples/erc20/src/lib.rs:212-238 | Aborts, changing nothing, exactly for another's account or an insufficient balance; else supply and account shrink by the amount and a transfer to the empty account is logged |
| Token.TokenState.Transfer | sdk/rust/examples/erc20/src/lib.rs:241-268 | False, changing nothing, exactly on an insufficient balance for another account; to oneself it is true and changes nothing; else the amount moves and is logged |
| Token.TokenState.TransferFrom | sdk/rust/examples/erc20/src/lib.rs:271-312 | False, changing nothing, exactly on insufficient allowance or balance; else debit, then credit from the balance read before the debit, the allowance shrinks, and the transfer is logged |
| Token.TokenState.Approve | sdk/rust/examples/erc20/src/lib.rs:315-337 | Afterwards the caller's allowance for that spender is the amount, whatever it was, every other allowance is what it was, and the approval is logged |
| Token.NoBalanceAboveSupply | sdk/rust/examples/erc20/src/lib.rs:193-205 | While balances add up to the supply, no balance exceeds it, and no two together |
| Token.CallIsExact | sdk/rust/examples/erc20/src/lib.rs:189-337 | While balances add up to the supply, every call does to every account what the unbounded ledger does, so nothing wraps, unless it mints past 2^64 or transfers from an account to itself |
| Token.CallConserves | sdk/rust/examples/erc20/src/lib.rs:189-312 | If and only if: the sum of balances stays the supply after a call unless it mints past 2^64 without its credit wrapping too, or is a transferFrom of something from an account to itself that goes through |
| Token.SelfTransferFromInflates | sdk/rust/examples/erc20/src/lib.rs:297-301 | Five tokens become ten in one transferFrom |
| Token.DebitsNeedConsent | sdk/rust/examples/erc20/src/lib.rs:212-312 | A balance shrinks only by its owner's call, by a spender with enough allowance, or by Initialize |
| Token.RunsConserve | sdk/rust/examples/erc20/src/lib.rs:121-337 | Over a run the sum of balances equals the total supply in every state if and only if no call is one of those two; so over every run without a mint past 2^64 and without such a transferFrom |
| Token.EventsTellBalances | sdk/rust/examples/erc20/src/lib.rs:88-98 | Over such a run without another Initialize, the Transfer events alone give every balance and the supply |
| Token.CarefulFromEmpty | sdk/rust/examples/erc20/src/lib.rs:88-337 | From the empty contract on, over every such run no balance exceeds the supply and the events give every balance |
| Token.AllowanceBoundsDrawing | sdk/rust/examples/erc20/src/lib.rs:271-337 | In every run between two approvals, what a spender has drawn and what is left of its allowance add up to what was approved |

## Left out

- Merkle slices: Go's `append(left, right...)` can write into a caller's array when a digest's slice has spare capacity; digests here are values.
- Merkle hashes: SHA-256 is any function, so the rejection half of the boundary is about runs without collisions, not about SHA-256 itself.
- Sorting: `sort.Slice` is represented by an insertion with the same contract, sorted and a permutation, in SortTxResults, UpdatePriorities and the key sort of GenerateAppHash.
- ModuleCache: closing compiled modules, Prepare and the statistics are not modelled; hashes are sequences of any length.
- Mempool: the age boost of a priority is a parameter, so repricing may use any boost; the background routine and the read-only listings are left out.
- PersistentMempool: a record's timestamp and its own copies of hash and number are part of the unknown codec.
- PersistentMempool: calls are serial, because the existence check and the insertion are two database transactions; ordered iteration and atomic transactions are the database's.
- RoundRobin: health checks, backoff times and discovery sources are parameters, and calls are serial although Next advances the pointer under a read lock.
- Dependencies: a search that would never end is a search that exceeds every stack bound; checksum, signature, scope and integrity checks and concurrent batches are left out.
- Staging: outputs are values in the map, where the source shares pointers with the workers; error texts, costs and creation times are left out.
- Submission: an attempt that reaches L0 is accepted with its reply heard or lost, or the call fails; the bound on attempts within one call is left out, and the failing runs make one attempt a call. A batch in the protocol may be any ready outputs, which covers every truncation and map order; ProcessReadyOutputs has the exact limit. Manual submissions reach L0 without a check or a status and are not in the log the theorems are about. No caller outside the workers updates a status in the repository, so the protocol has no such step.
- WasmAudit: reason texts are left out, the forbidden custom-section names are a parameter, and nothing is claimed about the meaning of the forbidden-opcode table, whose numbering is not the specification's.
- Leb128.ReadULEB128: truncated input is accepted as it stands in the source, unlike section 5.2.2 of the WebAssembly Core Specification 1.0, and bitwise or is addition modulo 2^32; the source's test for a sixth byte can never hold.
- Snapshot: file I/O and buffering are left out, the JSON header is an unknown codec with a round-trip law where one is needed, and hashes are bytes rather than hex.
- Contracts: the Badger backend keeps modules in files, which are not modelled, and hashes are bytes rather than hex. What contract code writes through the host, to whatever key, is not an operation of the store's runs.
- Migration: the running module's writes and result are unknown functions of the store, its gas and mode are left out, and so is the engine's lock, which GetCurrentHeight would take a second time.
- Token: loading and saving the JSON state and passing strings through linear memory are left out, an abort is a result, and the balances that the source holds by reference while it updates the map are read as values at that point.
- Networking, RPC, command line, configuration, metrics, logging, signing, pricing and gas metering are not part of this model.
