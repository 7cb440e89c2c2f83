# Verified model of eth2077

A Dafny model of the algorithmic core of eth2077, a Rust research client: its out-of-band BFT consensus
engine, the parallel lane scheduler, the transaction pool, and the smaller algorithms around them (cycle
search, dependency closure and depth, block access lists, wire framing, multidimensional fees, gossip relay
memory, civil dates). `dafny verify dfyconfig.toml` checks everything.

## How it is built

Code that changes things step by step is imperative Dafny: the engine, the fast-path accumulator, the pool,
the relay memory, the two depth-first searches and the byte buffer are classes, and each loop of the source is
a loop here. Each method is tied to a specification (a function, or a relation where a hash map's iteration
order leaves a choice), and the theorems are about that specification. What the specification means is told
once more without it, from the fields and list positions of its inputs, in the `...Meaning` modules, in
`Reactions`, `FastHistory` and `AccessListLayout`. Inductions are written out: automatic
induction is off in every lemma.

| file | what it models |
|---|---|
| `Common.dfy`, `Orders.dfy` | option and result types, saturating `u64`; orders, sorted sequences and the library sorts the code calls |
| `Validators.dfy` | weights, quorum arithmetic and leader rotation |
| `FastPath.dfy`, `FastHistory.dfy` | the optimistic accumulator, and what it answers after any attestations |
| `Engine.dfy`, `Reactions.dfy` | one engine: specification `Handles`, the class that implements it, and what it answers to each input |
| `EngineRuns.dfy`, `FastFeed.dfy`, `LastRound.dfy` | what every run of one engine keeps, and exactly when the fast path mirrors the votes |
| `Agreement.dfy` | honest engines, an adversary and a lossy network; agreement |
| `QuorumTightness.dfy`, `SafetyCondition.dfy` | exactly when agreement is guaranteed |
| `Lanes.dfy`, `LaneMeaning.dfy`, `LaneExecution.dfy`, `LanePacking.dfy` | lane assignment and what it means, serializability, packing bound |
| `CycleFinder.dfy` | depth-first cycle search |
| `Dependencies.dfy`, `DependencyDepth.dfy`, `DependencyMeaning.dfy` | worklist closure, ranking and memoised depth |
| `Mempool.dfy`, `PoolMeaning.dfy` | the pool, eviction and draining |
| `AccessLists.dfy`, `AccessListMerge.dfy`, `AccessListMeaning.dfy` | validation and merging of access lists |
| `ByteOrder.dfy`, `AccessListEncoding.dfy`, `AccessListHash.dfy`, `AccessListLayout.dfy` | the hashed byte string, its laws and its layout |
| `Codec.dfy` | length-prefixed framing |
| `Fees.dfy`, `FeeMeaning.dfy`, `FeeUpdate.dfy` | base cost, fee split and the next base fees |
| `Relay.dfy` | the relay memory |
| `Dates.dfy` | day numbers |

Machine integers are written out where their range matters (`u32` rounds, `u64` weights, `u128` fees, with
saturation); 32-byte hashes, keys and 20-byte addresses are numbers, read big-endian, so that their order is
the byte order.

## The consensus results

The network of `Agreement.dfy` runs any number of honest engines at any heights. Votes are delivered in any
order, repeatedly or never; every voter index that runs no honest engine belongs to the adversary, who may
send anything in its name; proposals are not authenticated at all. Three things are assumed, because the code
relies on them: an honest node's votes are those its engine asked to send; the `voter` field is authentic; an
engine starts no height again at which it has been active (`start_height` clears locks). Heights may be started
in any order. Honest engines may prevote twice in one round, since a second proposal makes the engine vote again.

`AgreementHolds` needs only that two quorums overlap in more than the Byzantine weight. The design documents
state safety without a condition ("no conflicting finalized blocks"); `SafetyIff` gives the condition under
which the code delivers it. `quorum_weight` is `2 * ((total - 1) / 3) + 1`, so a total of `3f + 2` or `3f + 3`
leaves two quorums overlapping in `f` only, and for each such total there is a run in which two honest nodes
finalize different blocks with `f` Byzantine weight. A total beyond 64 bits saturates and fails the same way.
With an optimistic threshold above 0 agreement fails at every total weight: a fast commit leaves the other
engines unlocked, so that whenever there are more listed validators than the threshold asks for, honest ones
alone can finalize different blocks in rounds 0 and 1, whatever their weights (`HonestDisagreement`).

Within a round below the saturating maximum, one engine's accumulator and prevote table say the same thing. In
the last round a timeout resets the accumulator but not the table. `MirrorIff` says exactly when the two agree in
all runs (below the last round, or with a threshold of 1, where nothing can be forgotten), and `UnopposedIff`
exactly when a fast finalization has no recorded prevote against it (below the last round, or with a threshold of
at most 1); both halves that fail are shown by explicit runs. Whatever the fast path does, all precommits an
engine emits in one round of a height name one hash once twice the quorum exceeds the total
(`OnePrecommitPerRound`).

## Other results that differ from a first guess

- Merging access lists in batches equals merging them at once exactly when no address that the second batch
  touches by storage accesses alone has post values in the first (`MergeInBatches`); individually valid lists
  always satisfy this, and `BatchesLosePosts` is an input where the two differ.
- Fee allocations add up exactly when the saturated base costs fit in 128 bits (`ComputeFeeAllocation`); a fee
  limit below the `u128` maximum is enough, and `OverflowingCosts` is an accepted transaction that allocates more
  than its fee.
- `compute_fee_allocation` rejects a dimension without a price while `validate_multidim_transaction` skips it;
  `AcceptedIffValidAndPriced` is the exact relation between their results, `UnpricedDimension` an input that only
  the second accepts, and any other refusal of the first is reported by the second (`RefusalsReported`).
- The access-list hash is canonical up to reordering only when accounts that share an address keep their order:
  the sort by address is stable, so `PreimageExact` is the condition for all lists, `PreimageCanonical` what it
  means for distinct addresses, and `RepeatedAddressMatters` two reorderings with different bytes.
- The memoised depth is the longest dependency chain exactly on acyclic inputs; a cyclic input has no longest
  chain, and the number returned is the length of some chain, at most the number of items.
- The packing loop sorts lanes by depth, so the list-scheduling bound (factor `2 - 1/m`) improves to
  `4/3 - 1/(3m)` of the best packing; both are stated.
- A base fee below 8 never rises, however high the demand, since its eighth rounds down to nothing (`RisesIff`).

## Model

| member | source | states |
|---|---|---|
| `Validators.QuorumOverlap` | crates/eth2077-oob-consensus/src/validator.rs:15-39 | any two voter sets that reach the quorum weight share at least `2q - total`, which is `f + 1` when the total is `3f + 1` |
| `Validators.SaturatingTotalExact` | crates/eth2077-oob-consensus/src/validator.rs:15-24 | the saturating fold is the exact sum of weights, cut off at the `u64` maximum |
| `Validators.SetWeightAdd` | crates/eth2077-oob-consensus/src/validator.rs:59-61 | a new voter adds exactly the weight of its first listing to a voter set |
| `Validators.EveryoneLeads` | crates/eth2077-oob-consensus/src/validator.rs:41-49 | below saturation, any `n` consecutive rounds give each of the `n` listed validators a turn |
| `Validators.LeaderPosition` | crates/eth2077-oob-consensus/src/validator.rs:41-49 | the leader stands at the remainder of the capped sum of height and round by the number of validators |
| `FastPath.FastPathAccumulator.AddAttestation` | crates/eth2077-oob-consensus/src/fast_path.rs:46-98 | new accumulator state and outcome are those of the specification `Add`, for every state and attestation |
| `FastHistory.HistoryDecides` | crates/eth2077-oob-consensus/src/fast_path.rs:46-98 | after any attestations: a conflict exactly when two timely ones differ, a timeout exactly for a late one, and otherwise fast finality or the slow path exactly by the number of timely attesters |
| `FastPath.FastPathAccumulator.Record` | crates/eth2077-oob-consensus/src/fast_path.rs:60-83 | a repeated attester's entry is replaced or conflicts, a newcomer is appended, sets the round hash or conflicts |
| `FastPath.FastPathAccumulator.CountAgreement` | crates/eth2077-oob-consensus/src/fast_path.rs:119-128 | the number of attestations for the round hash |
| `FastPath.FastPathAccumulator.BuildFastProof` | crates/eth2077-oob-consensus/src/fast_path.rs:137-165 | the whole proof: its envelope, the little-endian indices of the attesters of the hash in order, and the first non-empty signature among them |
| `FastHistory.ProofContents` | crates/eth2077-oob-consensus/src/fast_path.rs:137-165 | field by field: the block, the time of the deciding attestation, the first signature, and the latest attestation of each timely attester as eight bytes, least significant first |
| `FastPath.IndexBytesInjective` | crates/eth2077-oob-consensus/src/fast_path.rs:142-151 | the proof data determines the sequence of attesters |
| `FastPath.FastPathAccumulator.Reset` | crates/eth2077-oob-consensus/src/fast_path.rs:112-117 | the accumulator is empty again |
| `Engine.Tally` | crates/eth2077-oob-consensus/src/consensus.rs:124-170 | for every hash, the capped total weight of the voters recorded for it in the round, whatever the iteration order |
| `Engine.QuorumHash` | crates/eth2077-oob-consensus/src/consensus.rs:172-176 | a hash of the tally at or above the quorum, and none only if there is none |
| `Engine.FindQuorum` | crates/eth2077-oob-consensus/src/consensus.rs:335-338 | a hash whose recorded voters carry a quorum, and none only if no hash has one |
| `Engine.ConsensusEngine.OnStartHeight` | crates/eth2077-oob-consensus/src/consensus.rs:195-204 | fresh round state and accumulator, and a proposal request to the first leader |
| `Engine.ConsensusEngine.OnMessage` | crates/eth2077-oob-consensus/src/consensus.rs:206-231 | the engine's reaction is one that `Handles` allows |
| `Engine.ConsensusEngine.OnTimeout` | crates/eth2077-oob-consensus/src/consensus.rs:233-255 | next round (saturating), accumulator reset, the two events |
| `Engine.ConsensusEngine.OnProposal` | crates/eth2077-oob-consensus/src/consensus.rs:265-291 | only the leader of the current round is heard; the vote is for the locked hash if there is one |
| `Engine.ConsensusEngine.OnPrevote` | crates/eth2077-oob-consensus/src/consensus.rs:293-357 | first vote wins, fast path first, then lock and precommit on a quorum |
| `Engine.ConsensusEngine.OnPrecommit` | crates/eth2077-oob-consensus/src/consensus.rs:359-388 | first vote wins, commit on a quorum |
| `Reactions.PrevotesAnswerLeader` | crates/eth2077-oob-consensus/src/consensus.rs:265-291 | in any run, a prevote is sent exactly in answer to a proposal of the leader for the current height and round of an uncommitted engine, for the locked hash or else the proposed one |
| `Reactions.LockAndPrecommitIff` | crates/eth2077-oob-consensus/src/consensus.rs:335-356 | in any run, a precommit is sent exactly when a new prevote completes a quorum without finalizing, unless that lock was already precommitted |
| `Reactions.FinalizedIff` | crates/eth2077-oob-consensus/src/consensus.rs:304-388 | in any run below the last round, a block is finalized exactly when a new prevote completes an unopposed threshold or a new precommit completes a quorum |
| `Reactions.ProposalsAskedOnEntry` | crates/eth2077-oob-consensus/src/consensus.rs:195-255 | in any run, a proposal is asked for exactly on starting a height and on timing out, from the leader of the round that follows |
| `Reactions.RoundTimeoutsAnswerTimeouts` | crates/eth2077-oob-consensus/src/consensus.rs:233-255 | in any run, a round times out exactly on a timeout of an uncommitted engine, and the next round follows, or the last again |
| `Reactions.PrevotesRecorded` | crates/eth2077-oob-consensus/src/consensus.rs:106-113 | in any run, the prevote table gains exactly the first vote of each voter for the current height and round |
| `Reactions.PrecommitsRecorded` | crates/eth2077-oob-consensus/src/consensus.rs:115-122 | and so does the precommit table |
| `Reactions.ProposalsRecorded` | crates/eth2077-oob-consensus/src/consensus.rs:276-282 | the proposal table gains exactly what the leader proposes |
| `Reactions.LockAfter` | crates/eth2077-oob-consensus/src/consensus.rs:335-345 | the lock changes exactly with a new prevote quorum and is cleared exactly by a new height |
| `Reactions.PositionAfter` | crates/eth2077-oob-consensus/src/consensus.rs:90-104 | height, round and step after each input; committed exactly since a finalization |
| `EngineRuns.RunKeepsInv` | crates/eth2077-oob-consensus/src/consensus.rs:90-122 | in every state of every run a lock names a hash with a recorded prevote quorum of a round no later than the current one, and the accumulator is coupled to the prevote table |
| `EngineRuns.FastPathMirrorsVotes` | crates/eth2077-oob-consensus/src/consensus.rs:304-333 | below the last round the accumulator is in conflict exactly when the round's prevotes name two hashes, and otherwise holds exactly the round's non-nil prevotes |
| `LastRound.MirrorIff` | crates/eth2077-oob-consensus/src/consensus.rs:233-333 | in all runs the accumulator mirrors the prevotes of round `r` exactly when `r` is below the last round or the threshold is 1 |
| `EngineRuns.NoFastTimeout` | crates/eth2077-oob-consensus/src/consensus.rs:310-323 | no attestation the engine makes can time out |
| `EngineRuns.FastFinalizationJustified` | crates/eth2077-oob-consensus/src/fast_path.rs:85-91 | a fast finalization has the threshold of distinct recorded voters, and no other hash prevoted below the last round |
| `EngineRuns.FastProofListsVoters` | crates/eth2077-oob-consensus/src/fast_path.rs:85-165 | its proof data spells out the indices of that many distinct recorded voters, once each |
| `LastRound.UnopposedIff` | crates/eth2077-oob-consensus/src/consensus.rs:233-333 | in all runs a fast finalization of round `r` has no recorded prevote for another hash exactly when `r` is below the last round or the threshold is at most 1 |
| `LastRound.OpposedFinalization` | crates/eth2077-oob-consensus/src/consensus.rs:233-333 | with a threshold above 1, a run whose last round finalizes one hash by the fast path with a prevote for another on record |
| `EngineRuns.CommitJustified` | crates/eth2077-oob-consensus/src/consensus.rs:322-388 | whatever is finalized, in any run, has a recorded precommit quorum or a justified fast finalization, for the current height and round |
| `EngineRuns.FinalizesOncePerStart` | crates/eth2077-oob-consensus/src/consensus.rs:195-255 | two finalizations of one engine have a `start_height` between them |
| `EngineRuns.QuorumUnique` | crates/eth2077-oob-consensus/src/consensus.rs:106-176 | when twice the quorum exceeds the total, at most one hash per round has a quorum |
| `EngineRuns.OnePrecommitPerRound` | crates/eth2077-oob-consensus/src/consensus.rs:335-356 | then, in any run and with any fast-path configuration, all precommits emitted in one round of a height between two starts name one hash |
| `EngineRuns.EngineDeterministic` | crates/eth2077-oob-consensus/src/consensus.rs:172-176 | then the engine's reaction does not depend on hash-map order |
| `Agreement.QuorumRulesOut` | crates/eth2077-oob-consensus/src/consensus.rs:284-345 | a possible prevote quorum for one hash rules out a precommit quorum for every other hash in all earlier rounds |
| `Agreement.NetRunKeepsInv` | crates/eth2077-oob-consensus/src/consensus.rs:265-388 | the network invariant holds in every state of every run, at every height |
| `Agreement.AgreementHolds` | crates/eth2077-oob-consensus/src/consensus.rs:265-388 | with the fast path off and quorums overlapping in more than the Byzantine weight, no two honest engines ever finalize different hashes at one height, in one round or across rounds |
| `QuorumTightness.AgreementIff` | crates/eth2077-oob-consensus/src/validator.rs:36-39 | with the fast path off, agreement is guaranteed against `(total - 1) / 3` Byzantine weight exactly for total 0 and for 64-bit totals `3f + 1` |
| `QuorumTightness.Disagreement` | crates/eth2077-oob-consensus/src/validator.rs:36-39 | for every other total, a run in which two honest nodes finalize different hashes |
| `SafetyCondition.FastDisagreement` | crates/eth2077-oob-consensus/src/fast_path.rs:85-91 | with any positive optimistic threshold there is such a run at every total weight without Byzantine validators |
| `SafetyCondition.HonestDisagreement` | crates/eth2077-oob-consensus/src/consensus.rs:233-333 | for every validator set with more listed validators than the positive threshold, a run of honest listed validators only in which two finalize different hashes |
| `SafetyCondition.SafetyIff` | docs/ETH2077_ARCHITECTURE.md:72 | "no conflicting finalized blocks" is guaranteed exactly when the threshold is 0 and the total weight is 0 or a 64-bit `3f + 1` |
| `Lanes.RecordKeys` | crates/eth2077-execution/src/eip8142.rs:154-169 | free keys are recorded under the transaction's hash, held keys keep their holder, and each key another hash holds is reported once |
| `Lanes.AddToLane` | crates/eth2077-execution/src/eip8142.rs:134-172 | the tables after entering one more transaction, and its report: capacity errors, then one error for each key another hash holds in the lane |
| `Lanes.AssignToLanes` | crates/eth2077-execution/src/eip8142.rs:111-180 | succeeds exactly on blocks with non-zero hashes and keys, lane counts and saturated gas within limits and (if asked) no key shared by different transactions of a lane, and then each lane lists its indices in order; otherwise the error list is the concatenation of each transaction's report |
| `Lanes.ReportsIff` | crates/eth2077-execution/src/eip8142.rs:118-179 | the reports of a block are empty exactly when it is acceptable |
| `LaneMeaning.AcceptableMeans` | crates/eth2077-execution/src/eip8142.rs:111-180 | acceptance told from the fields: hashes, keys in either list, counts, exact gas sums and common keys |
| `LaneMeaning.GroupsMean` | crates/eth2077-execution/src/eip8142.rs:130-172 | each lane in use lists exactly its transactions, ascending |
| `LaneMeaning.ReportsMean` | crates/eth2077-execution/src/eip8142.rs:118-179 | an error is reported exactly when some transaction gives cause: no hash, a zero key, one count or gas total too many, or a key whose first user in the lane has another hash |
| `LaneMeaning.KeysAreTouched` | crates/eth2077-execution/src/eip8142.rs:296-314 | the normalized keys are those of the key list and of the conflict set, unless one is zero |
| `Lanes.FirstCommon` | crates/eth2077-execution/src/eip8142.rs:201-205 | the least common key, or none when the key sets are disjoint |
| `Lanes.DetectCrossLaneConflicts` | crates/eth2077-execution/src/eip8142.rs:182-210 | exactly the pairs of transactions in different lanes that share a key, in order, each with its least shared key |
| `LaneMeaning.ConflictsMean` | crates/eth2077-execution/src/eip8142.rs:182-210 | told from the key lists and conflict sets: the pairs of different lanes that name a common key, each with the least one, in order |
| `LaneExecution.ParallelIsSerial` | crates/eth2077-execution/src/eip8142.rs:111-210 | after a successful assignment without cross-lane conflicts, every interleaving that keeps each lane's order ends in the state of index-order execution, for transactions confined to the keys they name |
| `LaneExecution.LanesAreSerial` | crates/eth2077-execution/src/eip8142.rs:111-210 | the same from the fields alone: lanes in order and no key named by transactions of different lanes |
| `LanePacking.RoomForNext` | crates/eth2077-execution/src/eip8142.rs:328-335 | if no worker of some packing within a bound holds three jobs, the least loaded worker has room for the next largest job |
| `LanePacking.PackLanes` | crates/eth2077-execution/src/eip8142.rs:325-337 | the makespan is the largest load of a real packing, at most total plus `(m - 1)` times the deepest lane over `m`, and at most `4/3 - 1/(3m)` of any packing's |
| `LanePacking.LaneDepths` | crates/eth2077-execution/src/eip8142.rs:216-220 | each lane in use with the number of its transactions |
| `LanePacking.ListedDepthsCoverBlock` | crates/eth2077-execution/src/eip8142.rs:228-230 | the depths add up to the number of transactions |
| `LanePacking.ParallelismRatio` | crates/eth2077-execution/src/eip8142.rs:316-343 | total over the near-optimal makespan of a real packing, between 1 and the number of workers; 0 for an empty block |
| `CycleFinder.BuildGraph` | crates/eth2077-types/src/citadel_port.rs:129-141 | edges lead to the first migration of each dependency that has one |
| `CycleFinder.Search.Dfs` | crates/eth2077-types/src/citadel_port.rs:143-172 | terminates; a result is a simple cycle, no result leaves the node finished and the stack as it was |
| `CycleFinder.NoCycleWhenFinished` | crates/eth2077-types/src/citadel_port.rs:169-171 | when every node is finished, the finishing order is topological and there is no cycle |
| `CycleFinder.FindDependencyCycle` | crates/eth2077-types/src/citadel_port.rs:128-190 | returns names exactly when some migration depends on itself through others; they follow a closed walk of dependencies that repeats no migration and no name except its ends |
| `CycleFinder.CyclicMeans` | crates/eth2077-types/src/citadel_port.rs:128-141 | told from the migrations: a cycle is a loop of modules in which the first migration of each lists the next |
| `CycleFinder.NamesMean` | crates/eth2077-types/src/citadel_port.rs:174-186 | the names returned are such a loop |
| `Dependencies.SelectItems` | crates/eth2077-types/src/ef_architecture.rs:217-248 | terminates, for any titles; selects the seeds in order and then, for every other title of the least dependency-closed superset of their titles, the last item carrying it, once |
| `Dependencies.UniqueSelection` | crates/eth2077-types/src/ef_architecture.rs:217-248 | with unique titles that is each item of the least dependency-closed superset of the seeds, once |
| `DependencyMeaning.ClosureMeans` | crates/eth2077-types/src/ef_architecture.rs:210-248 | told from the fields: with unique titles the selection is the least set with all wanted items and the items they depend on |
| `DependencyMeaning.SeedsMean` | crates/eth2077-types/src/ef_architecture.rs:214-222 | without dependencies, exactly the relevant items of the wanted tracks and layers with the minimum priority |
| `Dependencies.FilterRelevantItems` | crates/eth2077-types/src/ef_architecture.rs:193-255 | the best `max_items` of the selection, best first and equals as they came; what is cut off ranks no better |
| `DependencyMeaning.RankingMeans` | crates/eth2077-types/src/ef_architecture.rs:193-208 | priority, complexity, track, layer and title decide in this order |
| `Dependencies.TitleIndex` | crates/eth2077-types/src/ef_architecture.rs:258-262 | exactly the titles in use, each leading to the last item carrying it |
| `DependencyDepth.Search.DepthFrom` | crates/eth2077-types/src/ef_architecture.rs:315-342 | terminates; the value is the length of a chain from the item and at most the number of recorded items, and on acyclic input that of the longest chain |
| `DependencyDepth.ComputeDependencyDepth` | crates/eth2077-types/src/ef_architecture.rs:257-272 | the length of the longest chain exactly on acyclic input, an unresolved dependency counting as one edge; on any input the length of some chain, at most the number of items |
| `DependencyMeaning.DepthMeans` | crates/eth2077-types/src/ef_architecture.rs:257-342 | told from titles: the greatest number of names in a chain, the last of which may be unresolved |
| `DependencyMeaning.AcyclicMeans` | crates/eth2077-types/src/ef_architecture.rs:315-342 | acyclic exactly when no titles form a loop |
| `DependencyDepth.CyclicHasNoDepth` | crates/eth2077-types/src/ef_architecture.rs:315-342 | on cyclic input no number is the length of a longest chain |
| `Mempool.Pool.constructor` | crates/eth2077-execution/src/ingress.rs:43-50 | an empty pool, indexes included |
| `Mempool.Pool.ValidateCandidate` | crates/eth2077-execution/src/ingress.rs:115-145 | the verdict a scan of the primary table would give |
| `PoolMeaning.RefusalMeans` | crates/eth2077-execution/src/ingress.rs:52-145 | each refusal and its cause, told from the pooled transactions, in the order in which they are looked for |
| `Mempool.Pool.Insert` | crates/eth2077-execution/src/ingress.rs:52-77 | a refusal changes nothing; success adds the transaction and, in a full pool, evicts exactly one of lowest price and highest nonce among ties; indexes, unique nonces, limits and the price floor are kept |
| `PoolMeaning.InsertionMeans` | crates/eth2077-execution/src/ingress.rs:52-77 | who is evicted, told from prices and nonces, and that nothing else changes |
| `Mempool.Pool.Submit` | crates/eth2077-execution/src/ingress.rs:209-216 | submitting does what inserting does |
| `Mempool.Pool.Remove` | crates/eth2077-execution/src/ingress.rs:79-83 | exactly that transaction leaves, and the indexes still match a scan |
| `Mempool.Pool.DecrementAccountState` | crates/eth2077-execution/src/ingress.rs:178-196 | one count and one nonce less, empty entries dropped |
| `Mempool.Pool.EvictLowestGas` | crates/eth2077-execution/src/ingress.rs:157-176 | nothing happens to a pool below its limit, for a count of 0 or with no capacity; otherwise exactly one transaction is removed, of lowest price and highest nonce among ties |
| `Mempool.Pool.Clear` | crates/eth2077-execution/src/ingress.rs:109-113 | table and indexes are empty |
| `Mempool.EvictionOrder` | crates/eth2077-execution/src/ingress.rs:162-167 | all hashes once, cheapest first, highest nonce first among equals |
| `Mempool.Pool.PeekBest` | crates/eth2077-execution/src/ingress.rs:85-95 | the best transactions, best first, as repeated extraction of the top gives them |
| `Mempool.RankedIsBest` | crates/eth2077-execution/src/ingress.rs:85-95 | any sorted listing of the pool is the order of repeated extraction of the top, so there is one |
| `Mempool.Pool.DrainBatch` | crates/eth2077-execution/src/ingress.rs:218-230 | the best transactions come out and exactly they leave all three tables |
| `Mempool.DrainComposes` | crates/eth2077-execution/src/ingress.rs:218-230 | draining `k` then `m` returns the same sequence and leaves the same pool as draining `k + m` |
| `Mempool.DrainedOutranksRest` | crates/eth2077-execution/src/ingress.rs:85-95 | what is drained comes in rank order and outranks what stays |
| `PoolMeaning.DrainingMeans` | crates/eth2077-execution/src/ingress.rs:85-95 | how many are drained, strictly by price, nonce and hash, each transaction drained or left, and all that is left after all that is drained |
| `AccessLists.Validate` | crates/eth2077-execution/src/eip7928.rs:46-94 | the exact error list, in order: an empty list, repeated accounts and keys, accesses without account, repeated accesses |
| `AccessLists.NoErrorsIffValid` | crates/eth2077-execution/src/eip7928.rs:46-94 | nothing is reported exactly for non-empty lists with distinct accounts, keys and accesses, every access on a listed account |
| `AccessListMeaning.ValidationMeans` | crates/eth2077-execution/src/eip7928.rs:46-94 | an error is reported exactly when list positions give cause |
| `AccessListMerge.MergeAccessLists` | crates/eth2077-execution/src/eip7928.rs:185-241 | the merge: sorted accounts with all keys and last post values, sorted last accesses, last block number |
| `AccessListMeaning.MergeMeans` | crates/eth2077-execution/src/eip7928.rs:185-241 | the merge told from list positions: whose post values, which keys and which accesses survive, and in what order |
| `AccessListMerge.MergeUnique` | crates/eth2077-execution/src/eip7928.rs:228-240 | given lists have one merge |
| `AccessListMerge.MergeIsValid` | crates/eth2077-execution/src/eip7928.rs:46-94 | a merge is sorted and free of duplicates, and passes validation exactly when it has an account |
| `AccessListMerge.MergeIdempotent` | crates/eth2077-execution/src/eip7928.rs:185-241 | merging a merge changes nothing |
| `AccessListMerge.MergeInBatches` | crates/eth2077-execution/src/eip7928.rs:194-225 | merging two merges equals merging all lists exactly when no post values are lost |
| `AccessListMerge.ValidBatches` | crates/eth2077-execution/src/eip7928.rs:185-241 | for individually valid lists it always does |
| `AccessListMerge.BatchesLosePosts` | crates/eth2077-execution/src/eip7928.rs:194-225 | an input on which merging two merges drops post values that merging all lists keeps |
| `AccessListEncoding.EncodeInjective` | crates/eth2077-execution/src/eip7928.rs:96-160 | in the Rust types' ranges, different lists have different byte strings |
| `AccessListLayout.HashedBytes` | crates/eth2077-execution/src/eip7928.rs:96-160 | the bytes fed to the hasher: the domain, the block number, the number of accounts, each account and each access at its offset, every number with the most significant byte first, accounts, keys and accesses ascending |
| `ByteOrder.BigEndianDigit` | crates/eth2077-execution/src/eip7928.rs:99-108 | byte `i` of `w` is the digit of 256 to the `w - 1 - i` |
| `AccessListLayout.EncodeLayout` | crates/eth2077-execution/src/eip7928.rs:96-160 | where each field of any list stands in its encoding: address, key count, keys, balance, nonce, code hash; address, key, value before, value after |
| `AccessListHash.PreimageCanonical` | crates/eth2077-execution/src/eip7928.rs:96-160 | for all lists, equal bytes mean equal lists up to the order of accounts, keys and accesses; with distinct addresses that reordering leaves the bytes unchanged |
| `AccessListHash.PreimageExact` | crates/eth2077-execution/src/eip7928.rs:96-160 | for all lists, the bytes are equal exactly when the lists are equal up to reordering that keeps accounts with one address in order |
| `AccessListHash.RepeatedAddressMatters` | crates/eth2077-execution/src/eip7928.rs:102-103 | two reorderings of one list with a repeated address whose bytes differ |
| `Codec.DecodeFrom` | crates/eth2077-p2p/src/codec.rs:49-77 | buffer and result are those of the specification `Decode` |
| `Codec.DecodeMeans` | crates/eth2077-p2p/src/codec.rs:49-77 | told from the bytes: four bytes of length, the most significant first, at most 16 MiB, then the payload |
| `Codec.EncodeTo` | crates/eth2077-p2p/src/codec.rs:83-100 | appends one frame, or fails exactly on unwritable or oversized payloads and appends nothing |
| `Codec.FrameMeans` | crates/eth2077-p2p/src/codec.rs:83-100 | a frame is the length of the payload in four bytes, the most significant first, and the payload |
| `Codec.DecodeExtends` | crates/eth2077-p2p/src/codec.rs:49-77 | an incomplete frame consumes nothing; a message or an error does not depend on the bytes that follow |
| `Codec.ChunkingIrrelevant` | crates/eth2077-p2p/src/codec.rs:49-77 | for any bytes, however cut, a reader gets the same messages, the same error and the same rest |
| `Codec.FramesGrow` | crates/eth2077-p2p/src/codec.rs:83-100 | encoding one more message appends its frame to the frames of those before it |
| `Codec.StreamRoundTrip` | crates/eth2077-p2p/src/codec.rs:45-101 | any chunking of the frames of any encodable messages yields exactly these messages in order |
| `Codec.PartialStream` | crates/eth2077-p2p/src/codec.rs:45-101 | part of the frames yields a prefix of the messages and no error |
| `Fees.ComputeBaseCost` | crates/eth2077-types/src/eip7999.rs:74-117 | the capped sum of costs, accepted exactly on distinct, priced dimensions within their maximum; otherwise the first complaint |
| `FeeMeaning.RefusalMeans` | crates/eth2077-types/src/eip7999.rs:74-137 | told from list positions: no usage, the first objectionable entry with its objection, or a limit below the sum of the prices |
| `Fees.SharesWithin` | crates/eth2077-types/src/eip7999.rs:149-158 | the floored shares, with saturated products, never exceed the priority fee |
| `Fees.Distribute` | crates/eth2077-types/src/eip7999.rs:149-161 | allocations add up to base cost plus priority fee; all but the first get exactly their floored share |
| `Fees.ComputeFeeAllocation` | crates/eth2077-types/src/eip7999.rs:119-176 | accepts exactly billable transactions whose limit covers the cost, otherwise with the first complaint; each allocation covers its base cost, the total is within the limit, and the sum is exact exactly when the costs fit in 128 bits, as they do below the maximal limit |
| `FeeMeaning.AllocationMeans` | crates/eth2077-types/src/eip7999.rs:119-176 | each entry is billed at the first listed fee of its dimension, within that maximum, with its floored share; totals and priority fee told from these |
| `FeeMeaning.LookupMeans` | crates/eth2077-types/src/eip7999.rs:65-72 | the parameters found are the first listed for the dimension |
| `Fees.ValidateTransaction` | crates/eth2077-types/src/eip7999.rs:199-245 | the exact error list, in order: no usage, each dimension's second use, usage over the maximum, and a limit below the capped cost |
| `FeeMeaning.ValidationMeans` | crates/eth2077-types/src/eip7999.rs:199-245 | an error is reported exactly when list positions give cause |
| `FeeMeaning.DuplicatesReportedOnce` | crates/eth2077-types/src/eip7999.rs:212-216 | a repeated dimension is reported by one entry, once |
| `Fees.NoErrorsIffValid` | crates/eth2077-types/src/eip7999.rs:199-245 | nothing is reported exactly for non-empty, distinct usage within maxima whose capped cost is within the limit |
| `Fees.AcceptedIffValidAndPriced` | crates/eth2077-types/src/eip7999.rs:74-245 | allocation succeeds exactly when validation reports nothing and every dimension has a price |
| `Fees.RefusalsReported` | crates/eth2077-types/src/eip7999.rs:74-245 | any error of allocation other than a missing price is among those validation reports |
| `Fees.OverflowingCosts` | crates/eth2077-types/src/eip7999.rs:119-176 | an accepted transaction whose allocations exceed its total fee |
| `Fees.UnpricedDimension` | crates/eth2077-types/src/eip7999.rs:223-232 | a transaction that validation accepts and allocation refuses |
| `FeeUpdate.UpdateBaseFees` | crates/eth2077-types/src/eip7999.rs:178-197 | every parameter gets its next fee in place, and nothing else changes |
| `FeeUpdate.FeeMoves` | crates/eth2077-types/src/eip7999.rs:178-197 | an eighth up, an eighth down or unchanged, by the usage listed first against the target, never zero |
| `FeeUpdate.RisesIff` | crates/eth2077-types/src/eip7999.rs:186-189 | excess demand raises a positive fee exactly when it is at least 8 and below the maximum |
| `FeeUpdate.FeeMonotone` | crates/eth2077-types/src/eip7999.rs:186-191 | more usage never means a lower next fee |
| `Relay.Memory.ShouldRelay` | crates/eth2077-p2p/src/gossip.rs:41-61 | a hash is relayed exactly when it is not among the last `C` relayed; set and queue are the tail of the history |
| `Relay.OfferMeans` | crates/eth2077-p2p/src/gossip.rs:41-61 | told from positions in the history: relayed exactly when none of the last `C` relayed hashes equals it |
| `Relay.Memory.EvictOld` | crates/eth2077-p2p/src/gossip.rs:100-114 | terminates with the last `C` queued hashes, the set holding the same |
| `Relay.RelayedSpaced` | crates/eth2077-p2p/src/gossip.rs:41-61 | over any inputs, two relays of a hash have at least `C` others between them |
| `Relay.RelayedExactly` | crates/eth2077-p2p/src/gossip.rs:41-61 | exactly the offered hashes are relayed at some point |
| `Dates.FormulaCountsDays` | crates/eth2077-types/src/assumption_checker.rs:139-153 | for every year, month and day the era formula equals counting year and month lengths from 1970-01-01 |
| `Dates.ConsecutiveDays` | crates/eth2077-types/src/assumption_checker.rs:119-153 | consecutive valid dates have consecutive numbers |
| `Dates.OrderPreserved` | crates/eth2077-types/src/assumption_checker.rs:119-153 | the numbering preserves and reflects calendar order, and is injective on valid dates |
| `Dates.EveryDayHasDate` | crates/eth2077-types/src/assumption_checker.rs:119-153 | every number is that of a valid date |

## Left out

- Liveness of consensus: the timeout driver lives outside the modelled code.
- Signatures, SHA-256 and the JSON payload codec: signatures and the digest are not modelled, only the bytes fed to it; the payload codec is a parameter, assumed to read back what it wrote where a round trip is claimed.
- Public keys of validators, which no modelled decision reads.
- `classify_transaction` and `compute_lane_commitment`: table lookups and a hash over a sorted list.
- `compute_lane_stats`: only the depth table and the packing are modelled; floating-point division is exact real division here, and the conflict discount is not applied.
- Lanes.AssignToLanes: leaves the order of the key conflicts of one transaction open, since it follows hash-set order.
- Priorities and complexities are real numbers, without the special values of floating point.
- `decode` errors carry a message text in the source; here they carry a reason.
- Overflow panics: `max_size * percent` in the pool (its result matters only as zero or not) and `i32` dates within 400 years of the minimum are computed without overflow.
- `GossipEngine` keeps two copies of the relay memory; the model has one class for both, and the wire messages built around it are not modelled.
- RPC, engine API, transport, node loops, EVM execution, genesis and configuration validators, and the planning and statistics modules of `eth2077-types`: plumbing, foreign code, or flat lists of independent checks.
