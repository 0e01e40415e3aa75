# A verified model of chud-db

chud-db is a distributed key-value store: an LSM storage engine (write-ahead
log, B-tree memtable, block-structured table files) under a cluster layer that
routes keys through a replicated range map, splits and merges ranges, tracks
members by gossip, keeps causal versions and repairs replicas through Merkle
roots. This project models the parts where the interesting promises are made
and proves them in Dafny, for all inputs, all runs or all reachable states.

`dafny verify dfyconfig.toml` verifies everything.

## What is modelled

**Routing.** `Ring` is the range map and its merge; `IsMerge` says what a merge
is, key by key, without following the algorithm, and the algorithm is proved to
produce it. `RingLaws` holds the algebra of merging, `RingTable` the table
object, `Routing` runs of a cluster in which nodes pull snapshots of each other
and propose splits and merges of stale ones.

**Tablets.** `Assignment` is rendezvous assignment of replicas, `Proposal` the
proposal identifier, `Tablets` and `TabletScheduler` the proposals a node makes
and the conditions under which it makes them.

**Versions and repair.** `Versioning` has vector clocks and reconciliation,
`Quorum` the read and write coordinators, `SplitRange` the byte-interpolating
range splitter, `Merkle` the range digest, `Repair` the row-by-row repair of two
replica objects, `RepairWalk` the recursive anti-entropy walk, with every scan,
call and write free to fail, `AntiEntropyRuns` sequences of such rounds.

**Membership.** `Membership` is the table with its precedence rules, `Swim` the
failure detector as a state machine in which packets may be lost, duplicated,
delayed and reordered.

**Engine.** `EngineReads` interleaves a reader with the single writer and the
flusher, and `DeletedReads` says when such a read misses a delete. `WalRecord`,
`WalStore`, `GroupCommit` and `WalFiles` are the log: its records, its segments
with every file operation free to fail, group commit with a crash at any moment,
and the objects and loops that carry it out. `Recovery` runs engine and log side
by side up to a crash.

**Indexes.** `SortedList` is the plain sorted list everything is measured
against. `Weaving`, `BTreeSpec`, `BTree` and `Memtable` are the B-tree with its
node objects changed in place. `TableCodec`, `TableBlocks`, `TableWriter`,
`TableIndex`, `TableReader`, `TableScans`, `Bloom` and `TableFile` are the table
file from the first byte written to the last byte read.

`Keys`, `Codec`, `Sequences` and `Sorting` are shared: byte strings in
lexicographic order, fixed-width integers, lists of lists, sorting.

Most operations are proved against a specification function. What that function
computes is in turn stated by lemmas in plain terms that share no definition with
it: what a merged map says at a key, which replicas are best, when a quorum is
met, which bytes a record or a block has, when a file can be read.

Strings are byte strings. Hash functions, checksums, digests, clocks, the
network, the random choice of peers and the outcome of every file operation are
parameters, so that what is proved holds whatever they answer; where a theorem
needs more of a hash function it says so in its `requires`. The repair walk needs
no two row lists that it compares to collide; `RepairWalk.HeldRowsServe` reduces
that to the rows held before the round, and `RepairWalk.RepairCanBegin` meets it
with a digest of eight bytes.

## What turned out not to hold

Some promises are not kept by the code on all inputs. The code is modelled as it
is; each entry has a concrete input or run and the exact condition under which
the promise holds.

- `RangeMap.Validate` accepts a map whose ranges overlap, because an unbounded
  end is not required to be the last one (its comment promises that there are no
  overlaps): `RingLaws.ValidateAcceptsOverlap`. A validated map is free of
  overlaps exactly when only its last range is unbounded
  (`RingLaws.NoOverlapIff`). Merging a map with itself is the identity exactly
  for such maps (`RingLaws.SelfMerge`), and the epoch can fall in a merge exactly
  when it sits in a hidden range (`Routing.EpochNeverFallsIff`).
- `SplitRange` may produce buckets that reach beyond the end of the range when
  the end has one to seven bytes, because it is padded with 0xFF:
  `SplitRange.ShortEndOverrun`, with the exact condition in
  `SplitRange.ContainedIff`. The repair walk therefore equals a flat diff of the
  range when the end is empty or has at least eight bytes and no step fails. For
  other ends a bucket may reach beyond the range: the walk then repairs keys
  beyond it, or ends with an error because the peer does not own the bucket
  (`RepairWalk.RepairRange`).
- A deleted key can reappear in a read while its older value sits in an older
  layer, because memtables hide tombstones: `DeletedReads.DeletedKeyReappears`.
  For every rule of when a memtable is full, reads of a key are atomic in all
  runs over a log exactly when the key is never deleted after a memtable was
  sealed while the key had a value (`DeletedReads.ReadsAtomicIff`).
- Incrementing a vector clock supersedes what was seen exactly when the counter
  has not reached its maximum (`Versioning.IncrementSupersedesIff`).
- An acknowledged write can be lost when a failing file write leaves some bytes
  behind: the retried buffer follows the fragment, and replay stops at it
  (`GroupCommit.TornWriteLosesAck`, for every checksum). Acknowledged means
  durable exactly when failing writes leave nothing (`GroupCommit.SurvivesIff`).
- A table file is closed and renamed without being synced, and then the log
  records it holds are released: if the file is lost in a crash, acknowledged
  writes are lost with it (`Recovery.UnsyncedTableLoses`). Every acknowledged
  write is recovered after every crash exactly when registered tables survive and
  failing log writes leave nothing behind (`Recovery.RecoversIff`).
- A node that probes a seed address which is its own can install an old answer
  and fall behind what others know of it (`Swim.SelfProbeFallsBehind`), and so
  does a node whose incarnation overflows (`Swim.OverflowFallsBehind`). Nobody is
  ever ahead of a node about itself exactly when neither can happen
  (`Swim.OwnershipIff`).
- A table block of more than 65538 bytes can lose its contents, since the used
  count has sixteen bits (`TableBlocks.UnitsReadBackIff`), and the prefix filter
  is free of false negatives exactly when the minimum prefix length does not
  exceed the maximum (`Bloom.PrefixCompleteIff`). The shipped configuration
  satisfies both.

## Model

| member | source | states |
|---|---|---|
| Ring.CheckMap | src/cluster/ring/rangemap.go:39-72 | the checks in their order pass exactly for maps that begin and end unbounded, have well-formed ranges and leave no gap |
| Ring.RangeIndexAt | src/cluster/ring/rangemap.go:157-164 | the linear search finds the one range that serves a key, for every map that passes validation |
| Ring.TieBreakAntisymmetric | src/cluster/ring/rangemap.go:182-216 | the tie order is antisymmetric, and only identical ranges of one generation tie completely, so both sides of a merge pick the same winner |
| Ring.MergeBoundaries | src/cluster/ring/rangemap.go:140-155 | the boundaries are exactly the bounded ends of both maps, strictly increasing |
| Ring.BoundariesSuffice | src/cluster/ring/rangemap.go:104-121 | between neighbouring boundaries the choice between the two maps is the same for every key, so that deciding at the starts decides everywhere |
| Ring.CoalesceSegments | src/cluster/ring/rangemap.go:231-246 | joining neighbours from one source gives a gapless chain that carries every key's label and has no two neighbours from the same source |
| Ring.TiesAreExact | src/cluster/ring/rangemap.go:112-126 | the recorded tied proposals are exactly those that tie at some key |
| Ring.Merge | src/cluster/ring/rangemap.go:93-138 | invalid maps are refused, a tie at the maximum generation is refused exactly when there is one, and otherwise the result is the merge: at every key the winner's replicas, proposal and bumped generation, with a boundary exactly where the winning range changes; changed is reported exactly when the map differs |
| RingLaws.MergeUnique | src/cluster/ring/rangemap.go:93-138 | two maps have at most one merge |
| RingLaws.MergeMeans | src/cluster/ring/rangemap.go:93-138 | the merge in plain terms, in both directions: at every key the replicas and proposal of the range with the higher generation, or at equal generations with the smaller proposal, bounds and replicas; its generation goes up by one exactly when some key is contested whose winner comes from the same map, proposal and generation; and there is a boundary exactly where the winning range changes |
| RingLaws.ProposalMovesAsOne | src/cluster/ring/rangemap.go:112-131 | after a merge all keys won by one proposal of one map at one generation have one generation |
| RingLaws.RefusedIff | src/cluster/ring/rangemap.go:115-121 | a merge of valid maps is refused exactly when two different ranges of the largest generation claim the same key |
| RingLaws.SelfMerge | src/cluster/ring/rangemap.go:93-138 | a map merged with itself is its reachable part, which is the map itself exactly when it has no interior unbounded end |
| RingLaws.ValidateAcceptsOverlap | src/cluster/ring/rangemap.go:39-72 | validation accepts a map of two different ranges that both contain every key |
| RingLaws.NoOverlapIff | src/cluster/ring/rangemap.go:39-72 | in a validated map no key lies in two ranges exactly when only the last range is unbounded |
| RingLaws.GenerationLaw | src/cluster/ring/rangemap.go:112-131 | merging lowers no key's generation on either side, and a tie raises it by exactly one |
| RingLaws.Converges | src/cluster/ring/rangemap.go:93-138 | after one side merged the other's map and the other merged the result back, both route every key alike |
| RingLaws.RoutingIsStable | src/cluster/ring/rangemap.go:93-138 | maps that route alike keep doing so when merged |
| RingLaws.SecondMergeSucceeds | src/cluster/ring/rangemap.go:93-138 | merging the result of a successful merge back cannot fail with a tie at the maximum generation |
| RingLaws.Commutes | src/cluster/ring/rangemap.go:93-138 | merging in either direction gives the same ranges, replicas and proposals, with generations at most one apart and only where both sides held the identical range |
| RingTable.NewTable | src/cluster/ring/table.go:15-20 | a table exists exactly for an initial map that passes validation |
| RingTable.Table.Merge | src/cluster/ring/table.go:89-98 | the table becomes the merge or stays as it is on an error, and always passes validation |
| RingTable.Table.Epoch | src/cluster/ring/rangemap.go:25-33 | the epoch is the largest generation, zero for none |
| RingTable.Table.Owners | src/cluster/ring/table.go:37-42 | the owners of a key are the replicas of the range that serves it, and there is at least one |
| RingTable.Table.OwnersForRange | src/cluster/ring/rangemap.go:306-324 | owners are answered exactly when one range serves the whole half-open interval |
| RingTable.Table.OwnersForKeyRange | src/cluster/ring/rangemap.go:291-302 | owners are answered exactly when one range serves every key between both ends |
| RingTable.Table.IsOwner | src/cluster/ring/table.go:45-52 | true exactly when the local node is a replica of the key's range |
| RingTable.Table.OwnsRange | src/cluster/ring/table.go:73-86 | true exactly when one range with the local node serves the interval, in which case the node owns every key of it |
| Routing.MergeIsUpperBound | src/cluster/ring/table.go:89-98 | a merge is at least as advanced as both maps at every key |
| Routing.NextKeepsGood | src/cluster/ring/syncer.go:132-147 | a pull or proposal leaves every table valid and at least as advanced as everything it ever was |
| Routing.RunDominates | src/cluster/ring/syncer.go:106-147 | in every run, a node's table only advances, and a partition stays a partition |
| Routing.RunIsSafe | src/cluster/ring/syncer.go:106-147 | in every run every key has replicas on every node, generations never fall, partitions stay partitions, and neither a reachable epoch nor the epoch of a partition ever falls |
| Routing.EpochNeverFallsIff | src/cluster/ring/rangemap.go:25-33 | no merge lowers the epoch exactly when it belongs to a range that can be reached |
| Routing.PullLeadsToAgreement | src/cluster/ring/syncer.go:132-147 | after a pull the puller is at least as advanced as the snapshot, and routes like it if the snapshot was at least as advanced |
| Routing.PulledIsDominated | src/cluster/ring/syncer.go:132-147 | what a node has pulled, its table knows ever after |
| Routing.HubSurveys | src/cluster/ring/syncer.go:106-147 | a table that knows what every node's table knows also knows every table that can still be received |
| Routing.ClusterAgrees | src/cluster/ring/syncer.go:106-147 | once a table knows everything, however its contents then spread through any number of nodes, with stale snapshots among them, each node that ever followed it routes every key like it from then on |
| Routing.MutualDominanceIsAgreement | src/cluster/ring/rangemap.go:93-138 | two maps that are each at least as advanced as the other route alike |
| Assignment.RankCandidates | src/cluster/tablet/assignment.go:66-89 | the ranking by score and identifier is a function of the set of non-empty candidates |
| Assignment.RankingUnique | src/cluster/tablet/assignment.go:66-89 | a set of candidates has one ranking |
| Assignment.AssignReplicas | src/cluster/tablet/assignment.go:19-64 | the assignment is a function of the sets of candidates and previous replicas only, neither their order nor repetition matters |
| Assignment.AssignmentIsBest | src/cluster/tablet/assignment.go:19-64 | the replicas, listed best first: the best of the live previous replicas as far as they must be retained, and of all other candidates the best; better means a higher score, at equal scores a smaller identifier |
| Assignment.ScoreTellsApart | src/cluster/tablet/assignment.go:91-100 | the hashed stream is the start, the end and the node, each behind its length, and no other bounds or node give the same stream |
| Assignment.AssignmentIsSafe | src/cluster/tablet/assignment.go:19-64 | it succeeds exactly when the count is positive, enough candidates exist and all but one of the needed replicas can be retained; then the replicas are distinct, of the right number, among the candidates, and all but at most one held the data |
| Proposal.WriteStream | src/cluster/ring/proposal.go:10-34 | the digested stream is that of the ranges sorted by bounds with sorted replicas |
| Proposal.StreamIdentifiesContent | src/cluster/ring/proposal.go:10-45 | two proposals digest the same stream exactly when they have the same ranges up to the order of ranges and replicas |
| Proposal.CanonicalInOrder | src/cluster/ring/proposal.go:11-23 | what is digested is sorted by start and then end, each replica list is sorted, and nothing is added or lost |
| Proposal.StreamLayout | src/cluster/ring/proposal.go:24-45 | the number of ranges, then for each its start, its end, the number of its replicas and the replicas, with lengths in eight bytes |
| Proposal.ReplicaOrderIsIrrelevant | src/cluster/ring/proposal.go:14-23 | sorting identifies replica lists exactly up to rearrangement |
| Tablets.IntersectReplicas | src/cluster/tablet/scheduler.go:232-244 | exactly the replicas of both sides, without new repetition |
| Tablets.ReplacementInstalled | src/cluster/tablet/scheduler.go:212-221 | replacing neighbouring ranges by pieces of the next generation is accepted by the table verbatim and changes it |
| Tablets.SplitKeepsDataReachable | src/cluster/tablet/scheduler.go:150-182 | a proposed split is installed verbatim; every key of the range gets the right number of distinct replicas of which all but at most one held it, and no other key changes |
| Tablets.SplitProposal | src/cluster/tablet/scheduler.go:150-182 | a split is proposed exactly when the generation can go up, the boundary is neither empty nor an end and replicas can be assigned; it replaces the range by two halves, one generation up, each with the best replicas for its own bounds, under one identifier that digests these two halves |
| Tablets.SplitElsewhereRejected | src/cluster/tablet/scheduler.go:150-182 | a boundary that does not cut the range in two gives a proposal that fails validation |
| Tablets.MergeKeepsDataReachable | src/cluster/tablet/scheduler.go:184-210 | a proposed merge of neighbours is installed verbatim, and all but at most one of the replicas held both halves |
| Tablets.MergeProposal | src/cluster/tablet/scheduler.go:184-210 | a merge is proposed exactly when both generations can go up and enough of the common replicas are alive; it replaces the two by one range, one above the higher generation, with the best replicas, under an identifier that digests it |
| TabletScheduler.PickSplitBoundary | src/cluster/tablet/scanner.go:36-76 | a failed scan and entries of a single key are refused exactly; otherwise the boundary is the least key that divides the bytes below and above it most evenly, and it cuts the range the entries come from in two |
| TabletScheduler.BestBoundaryUnique | src/cluster/tablet/scanner.go:46-76 | there is only one such boundary |
| TabletScheduler.BoundaryOrderFree | src/cluster/tablet/scanner.go:45-46 | it does not depend on the order in which the store yields the entries |
| TabletScheduler.SettledCountsStreak | src/cluster/tablet/scheduler.go:133-148 | the settled count of a range is the number of latest snapshots in a row in which the node held exactly this range |
| TabletScheduler.PlanMeans | src/cluster/tablet/scheduler.go:101-182 | a split is wanted exactly for a range held unchanged in enough of the latest snapshots whose estimate reaches the split size, a merge exactly for two such neighbours whose estimates are at most the merge size |
| TabletScheduler.Scheduler.UpdateSettled | src/cluster/tablet/scheduler.go:133-143 | every count goes up by one for a range still held and is dropped otherwise |
| TabletScheduler.ProposeSplit | src/cluster/tablet/scheduler.go:150-182 | the proposal is the split of the specification, with assignments made from the candidate set |
| TabletScheduler.ProposeMerge | src/cluster/tablet/scheduler.go:184-210 | the proposal is the merge of the specification |
| TabletScheduler.IndependentDecidersAgree | src/cluster/tablet/scheduler.go:150-182 | nodes that split the same range at the same key with the same set of candidates, in whatever order, make the identical proposal, and merging one into the other changes nothing |
| TabletScheduler.Scheduler.TickRange | src/cluster/tablet/scheduler.go:212-221 | a decision made on the snapshot is merged into the table as it is by then, and reported as a change exactly when the table changes |
| TabletScheduler.Scheduler.Tick | src/cluster/tablet/scheduler.go:101-131 | while maps of other nodes keep arriving, the first proposal that changes the table is the only one and its epoch is published, and nothing is published if there is none; a proposal is the split of a settled range replicated here that is large enough, or the merge of two such neighbours that are both small enough |
| Versioning.Compare | src/cluster/versioning/vector_clock.go:41-74 | the comparison is the causal order of the counters, absent ones counting as zero |
| Versioning.Merge | src/cluster/versioning/vector_clock.go:31-39 | the merged clock holds the larger counter of every node |
| Versioning.JoinIsLeastUpperBound | src/cluster/versioning/vector_clock.go:31-39 | it is the least clock above both |
| Versioning.IncrementSupersedesIff | src/cluster/versioning/vector_clock.go:25-29 | incrementing supersedes everything below the clock exactly when the counter is not at its maximum; at the maximum the result is older |
| Versioning.SurvivorsAreMaxima | src/cluster/versioning/reconcile.go:14-53 | the surviving versions are inputs, pairwise concurrent, at least one, and every input is at or below one of them |
| Versioning.SurvivorsAreKept | src/cluster/versioning/reconcile.go:14-53 | the survivors, in the order of the input, are exactly the versions with nothing newer in the list and nothing equally new before them |
| Versioning.ContextOfSurvivors | src/cluster/versioning/reconcile.go:30-52 | the context of the survivors is that of all inputs |
| Versioning.Reconcile | src/cluster/versioning/reconcile.go:14-53 | nothing for no input, one winner exactly for one survivor, otherwise the siblings; the context covers every input |
| Quorum.Get | src/cluster/coordination/coordinator.go:157-198 | each error exactly under its condition; versions are returned exactly when the requested quorum, or the configured one if none is requested, is at most the number of owners and that many answered; they are versions that owners found, reconciled, and together with their context they cover every version found |
| Quorum.Put | src/cluster/coordination/coordinator.go:114-130 | each error exactly under its condition; the write succeeds exactly when the requested quorum, or the configured one if none is requested, is at most the number of owners and that many took it; the written clock is the context with the counter of the coordinator raised by one |
| Quorum.QuorumsMeet | src/cluster/coordination/coordinator.go:200-221 | quorums that together exceed the owners share an owner that acknowledged and answered |
| Quorum.QuorumReadSeesWrite | src/cluster/coordination/coordinator.go:157-198 | a read quorum that overlaps the write quorum returns a context covering the write and no version older than it |
| Quorum.WriteThenRead | src/cluster/coordination/coordinator.go:114-198 | a write and a read of the same owners that both reach their quorums, which together exceed the owners: the read returns a version, a context that covers the write, and nothing older than it |
| Quorum.WriteAfterReadSupersedes | src/cluster/coordination/coordinator.go:114-130 | writing with the context of a read supersedes every version that was read |
| SplitRange.SplitKeys | src/cluster/antientropy/splitrange.go:33-68 | the loop over eight-byte numbers, which do not overflow, produces the interpolated buckets of the closed form; a count below one is refused |
| SplitRange.BoundariesIncrease | src/cluster/antientropy/splitrange.go:45-66 | interior boundaries strictly increase as byte strings |
| SplitRange.SplitCovers | src/cluster/antientropy/splitrange.go:33-68 | at most n buckets, and every key of the range is in one of them |
| SplitRange.SplitIsEven | src/cluster/antientropy/splitrange.go:33-85 | reading the first eight bytes of both ends as numbers, n touching buckets with boundaries at multiples of the width divided by n, one for each number if there are fewer, and the whole range if it has no width |
| SplitRange.BucketUnique | src/cluster/antientropy/splitrange.go:33-68 | no key is in two buckets |
| SplitRange.ContainedIff | src/cluster/antientropy/splitrange.go:33-85 | the buckets stay inside the range exactly when no interior boundary reaches the end |
| SplitRange.LongEndRespected | src/cluster/antientropy/splitrange.go:72-79 | they do for every end that is empty or has at least eight bytes |
| SplitRange.ShortEndOverrun | src/cluster/antientropy/splitrange.go:72-79 | the range from a to b split in four is a counterexample |
| Merkle.ScanSorted | src/cluster/antientropy/roothash.go:41-57 | the rows of a range as a list sorted by key, each exactly once |
| Merkle.EncodeRowsInjective | src/cluster/antientropy/roothash.go:41-64 | different lists of rows whose stored values tell them apart give different digest streams |
| Merkle.RowLayout | src/cluster/antientropy/roothash.go:47-64 | a row is digested as key length, key, value length, value |
| Merkle.ComputeMerkleRoot | src/cluster/antientropy/roothash.go:41-57 | the root is the digest of the sorted rows of the range with their number |
| Merkle.RootsAgreeIff | src/cluster/antientropy/roothash.go:41-57 | if the two streams do not collide, roots over a range agree exactly when the rows do |
| Repair.MergeDiff | src/cluster/antientropy/scheduler.go:263-310 | the merge of two sorted lists pulls exactly the rows missing or older locally and pushes exactly those missing or older at the peer |
| Repair.RepairMeans | src/cluster/antientropy/scheduler.go:301-339 | told by the clocks: a missing or strictly older copy is replaced by that of the other side, other copies stay, and a side that does not own the key changes nothing |
| Repair.RepairedAgree | src/cluster/antientropy/scheduler.go:301-310 | after the repair of an owned key both sides hold the same exactly when the copies were not different ones that are concurrent or equally old, and repairing again changes nothing |
| Repair.ApplyPulls | src/cluster/antientropy/scheduler.go:312-329 | pulled rows of keys owned here are written, a failed write does not stop the others, and without an error all of them are |
| Repair.PushRepairs | src/cluster/antientropy/server.go:97-124 | the peer refuses all rows if it does not own one of them, and otherwise writes them up to the first failure |
| Repair.MovesCompose | src/cluster/antientropy/scheduler.go:301-310 | repairs of single copies, in any order, repeated or interrupted, add up to the repair |
| Repair.DiffLeaf | src/cluster/antientropy/scheduler.go:218-237 | whatever fails, a leaf only repairs single copies of its bucket; without an error both replicas are what a key-by-key repair makes them, and there is none if nothing fails and the peer owns the bucket |
| Repair.FlatRepairDeterministic | src/cluster/antientropy/scheduler.go:263-339 | the key-by-key repair determines both outcomes |
| RepairWalk.DiffNode | src/cluster/antientropy/scheduler.go:166-212 | whatever fails, the recursive walk only repairs single copies; without an error every key of its bucket is repaired, and none outside is touched when the splitter stays inside |
| RepairWalk.DiffChildren | src/cluster/antientropy/scheduler.go:188-204 | walking the children one after the other, failed ones included, repairs what each covers |
| RepairWalk.StopsIff | src/cluster/antientropy/scheduler.go:207-212 | a node is a leaf exactly at the depth limit or with no more rows than the threshold, where a negative threshold is a very large one |
| RepairWalk.InterpolationLosesNothing | src/cluster/antientropy/scheduler.go:166-205 | the interpolating splitter covers every bucket, and stays inside where the end is exact |
| RepairWalk.RepairRange | src/cluster/antientropy/scheduler.go:157-159 | for every fan-out, depth and threshold: only repairs; without an error the whole range is repaired; when its end is empty or has at least eight bytes nothing outside changes, so that the walk equals the flat repair of the range, and there is no error if nothing fails and the peer owns what it is asked for |
| RepairWalk.HeldRowsServe | src/cluster/antientropy/roothash.go:32-40 | comparing roots is sound throughout the walk if the rows held before it have lengths of machine size, stored values that tell them apart, and sorted lists without colliding digests |
| RepairWalk.RepairCanBegin | src/cluster/antientropy/roothash.go:51-56 | two different stores and an eight-byte digest meet every condition of a repair |
| AntiEntropyRuns.RepairIsRound | src/cluster/antientropy/scheduler.go:123-159 | whatever a repair between two replicas does, complete or not, is one round of the run model |
| AntiEntropyRuns.RunConservesKnowledge | src/cluster/antientropy/scheduler.go:312-339 | over every sequence of rounds, complete or cut short, the maximal versions of a key in the cluster stay exactly the same |
| AntiEntropyRuns.RunNeverOverwritesSiblings | src/cluster/antientropy/scheduler.go:301-329 | a replica's copy is only ever replaced by a causally newer one |
| Membership.Table.constructor | src/cluster/membership/table.go:24-38 | the table starts with the local record, alive unless said otherwise |
| Membership.Table.Upsert | src/cluster/membership/table.go:77-87 | a record of another cluster is refused, any other one replaces what is there |
| Membership.Table.Merge | src/cluster/membership/table.go:91-122 | records merge by precedence, epochs by maximum, accusations of oneself are refuted; changed is reported exactly when the table differs |
| Membership.Table.RefuteAccusation | src/cluster/membership/table.go:197-209 | a standing accusation raises the own incarnation past it |
| Membership.Table.MarkSuspect | src/cluster/membership/table.go:127-142 | only an alive record of exactly this incarnation, never one's own, becomes suspect |
| Membership.Table.MarkDead | src/cluster/membership/table.go:147-162 | only a suspect record of exactly this incarnation becomes dead |
| Membership.Table.RefuteLocalSuspect | src/cluster/membership/table.go:167-176 | the own record comes back alive with the next incarnation, the other records stay |
| Membership.Table.SetLocalRangeMapEpoch | src/cluster/membership/table.go:182-190 | the own record advertises the epoch given, even a lower one, the other records stay |
| Membership.CondemnIff | src/cluster/membership/table.go:127-162 | a verdict changes the status of one other node at exactly the observed incarnation and status, and nothing else |
| Membership.UpsertStores | src/cluster/membership/table.go:77-87 | an upserted record is stored field by field, under this cluster and the next epoch |
| Membership.OwnRecord | src/cluster/membership/table.go:91-122 | a record about the node itself changes something exactly when it is an accusation at or above the own incarnation; then the node is alive at the next incarnation and otherwise as before |
| Membership.OthersUntouched | src/cluster/membership/table.go:77-122 | only the entry of the node a record is about can change, and none for a record of another cluster |
| Membership.MergeAllIsJoin | src/cluster/membership/table.go:91-122 | after any list of records, the entry of another node is the join of all claims about it |
| Membership.MergedVerdict | src/cluster/membership/member.go:31-64 | after any list of records another node is known exactly when there is a claim about it; its incarnation and epoch are the largest claimed, and its status is dead, suspect or alive, in this order, as soon as one claim at that incarnation says so |
| Membership.MergeOrderIndependent | src/cluster/membership/member.go:31-64 | incarnation, status and epoch depend only on the set of records, not on their order or number |
| Swim.StepKeepsInv | src/cluster/membership/gossiper.go:104-275 | probing, gossip, escalation, answers and delivery in any order keep the invariant, and own incarnations only grow |
| Swim.IncarnationOwnership | src/cluster/membership/table.go:197-209 | in every run nobody, in a table or in flight, claims a higher incarnation for a node than the node itself, whose own record is alive |
| Swim.OwnNeverDecreases | src/cluster/membership/table.go:197-220 | over every run the own incarnation never decreases |
| Swim.AccusationIsRefuted | src/cluster/membership/table.go:91-122 | merging an accusation of oneself leaves an incarnation above it |
| Swim.RefutationSticks | src/cluster/membership/table.go:91-122 | ever after an accusation was delivered, the node's own record supersedes it |
| Swim.SupersedingClears | src/cluster/membership/table.go:91-122 | the refuting record clears the accusation wherever it arrives |
| Swim.SelfProbeFallsBehind | src/cluster/membership/gossiper.go:104-120 | a run from the start in which a node installs its own old answer and another node is ahead of it |
| Swim.OverflowFallsBehind | src/cluster/membership/table.go:167-180 | a run in which a node at the maximum incarnation starts again at zero and another node is ahead of it |
| Swim.OwnershipIff | src/cluster/membership/gossiper.go:98-120 | ownership holds in all runs exactly when no node can probe itself and no incarnation can overflow |
| EngineReads.NextKeepsInv | src/engine/write.go:42-70 | every step of writer, flusher and reader keeps the layers contiguous, complete and cut where a memtable was full |
| EngineReads.ReadsAreAtomic | src/engine/read.go:5-53 | in every interleaving a read of a key that is not deleted after its value was sealed returns its value at some moment during the read |
| EngineReads.PurgedIsInTable | src/engine/flusher.go:8-27 | every purged record is covered by a registered table that holds at least as new a value of its key |
| EngineReads.QueueBounded | src/engine/immutable_queue.go:25-36 | in every run no more full memtables wait to be flushed than the limit |
| DeletedReads.StaleRead | src/engine/read.go:12-28 | whenever a memtable is sealed while a key has a value and the key is deleted later, a run in which a read after the delete returns a value |
| DeletedReads.DeletedKeyReappears | src/memtable/btree.go:42-57 | such a key breaks atomicity |
| DeletedReads.ReadsAtomicIff | src/engine/read.go:5-53 | whatever the memtable size, reads of a key are atomic in all runs over a log exactly when it is never deleted after a memtable was sealed while it had a value |
| DeletedReads.NeverDeletedIsInTime | src/engine/write.go:63-67 | a key never deleted after it had a value satisfies this for every memtable size |
| Recovery.RunKeepsCoupled | src/engine/write.go:42-70 | in every run of engine and log together, failed appends included, each write has its record, in order, and no more is released than the engine has flushed |
| Recovery.AckedIsRecovered | src/engine/flusher.go:8-27 | if tables survive and no write tears, every acknowledged write is, after a crash at any moment, in the replayed log or in a table that holds it or something newer |
| Recovery.TornWriteLoses | src/wal/storage/append_file.go:230-239 | a run in which a torn log write loses an acknowledged write of the engine |
| Recovery.UnsyncedTableLoses | src/service/file_writer/writer.go:63-83 | a run in which a table is registered, its records are released, and the table is lost with an acknowledged write |
| Recovery.RecoversIff | src/engine/flusher.go:8-27 | acknowledged writes are always recovered exactly when failing log writes leave nothing behind and registered tables survive |
| WalRecord.EncodeRecord | src/wal/record/record.go:25-48 | the record laid out in one buffer is the specified encoding; unknown operations and deletes with a value are refused |
| WalRecord.RecordRoundTrip | src/wal/record/record.go:25-90 | decoding gives back every encoded record |
| WalRecord.EncodedFields | src/wal/record/record.go:33-46 | every field of the encoding at its offset: checksum, length, number, operation 1 or 2, key and value lengths, key, value |
| WalRecord.DecodedIsEncoded | src/wal/record/record.go:50-90 | nothing else is decoded: a buffer gives a record exactly when it begins with the encoding of that record, checksum included |
| WalRecord.TornLogReplays | src/wal/storage/append_file.go:327-357 | a log cut at any byte replays to exactly the records that are completely there |
| WalRecord.ReplayIsWhatIsThere | src/wal/storage/append_file.go:327-357 | whatever the bytes, the records replayed, encoded again, are the front of the file, and behind them no whole record follows |
| WalStore.AppendKeeps | src/wal/storage/append_file.go:119-142 | whatever fails on the way, an append leaves the files standing for the log with one more record |
| WalStore.AppendSucceedsIff | src/wal/storage/append_file.go:119-142 | exactly which answers of the file system, buffer size and segment size let an append succeed |
| WalStore.AppendedBytes | src/wal/storage/append_file.go:119-142 | a successful append to an open file leaves nothing buffered, and begins a new segment exactly when the old one has reached its size |
| WalStore.SyncKeeps | src/wal/storage/append_file.go:241-253 | a successful sync makes everything appended durable |
| WalStore.RotateCloseKeeps | src/wal/storage/append_file.go:267-296 | rotation closes a segment whose records are all durable |
| WalStore.PurgeKeeps | src/wal/storage/append_file.go:180-204 | purging removes a prefix of the log, all of it at or below the checkpoint |
| WalStore.PurgeableIsExact | src/wal/storage/append_file.go:186-204 | as many leading segments go as hold no record above the checkpoint, and the next one holds one |
| WalStore.LastWrittenStays | src/wal/storage/append_file.go:186-204 | the segment last written to is never removed, open or not |
| WalStore.CrashReplay | src/wal/replay.go:21-46 | after a crash that cuts the active segment anywhere past its synced length, replay gives the log from the purge point up to at least everything durable |
| WalStore.WorstCrash | src/wal/replay.go:21-46 | the worst crash leaves exactly the records up to the durable number |
| WalStore.ReplayIsConcatenation | src/wal/replay.go:21-46 | segments replay one after the other |
| GroupCommit.RunKeepsProtocol | src/wal/wal.go:69-98 | in every run, whatever the disk does: at most one fsync leader, flushed <= durable <= appended < next, nobody sleeps without a leader to wake them, and nil means durable |
| GroupCommit.AckedSurvives | src/wal/wal.go:69-98 | in every run without torn writes, replay after a crash is a numbered stretch of the log that starts within the checkpoint and reaches past every acknowledged number |
| GroupCommit.DurableIsExact | src/wal/wal.go:136-138 | in every run without torn writes some crash leaves a replay that ends with the last durable record, so that no larger number could be promised |
| GroupCommit.OneSyncServesAll | src/wal/wal.go:74-98 | when the fsync of a leader succeeds, everybody who waits for a record that was in the log by then is acknowledged without another fsync |
| GroupCommit.DirectSync | src/wal/wal.go:69-73 | without grouping a waiter syncs for itself and is told the outcome |
| GroupCommit.ModeKept | src/wal/wal.go:69-73 | in every run waiters of the grouped mode never sync for themselves and others never wait for anybody |
| GroupCommit.TornWriteLosesAck | src/wal/storage/append_file.go:230-239 | a run, for every checksum, in which a failed write leaves one byte and an acknowledged record is lost |
| GroupCommit.SurvivesIff | src/wal/wal.go:69-98 | acknowledged records survive every run and crash exactly when failing writes leave nothing behind |
| WalFiles.MaxLSNInSegment | src/wal/storage/append_file.go:98-117 | the number of the last readable record, zero for none |
| WalFiles.ReplaySegments | src/wal/replay.go:21-46 | every readable record of every segment in order; which records those are is WalRecord.ReplayIsWhatIsThere |
| WalFiles.AppendFileStorage.Append | src/wal/storage/append_file.go:119-142 | the new state of counters, buffer and files for every outcome of every file operation; a number is returned exactly on success |
| WalFiles.AppendFileStorage.FlushLocked | src/wal/storage/append_file.go:230-239 | the buffer goes to the file, or stays with whatever part a failing write left |
| WalFiles.AppendFileStorage.SyncLocked | src/wal/storage/append_file.go:241-253 | flush, fsync, and only then a new durable number |
| WalFiles.AppendFileStorage.RotateIfNeededLocked | src/wal/storage/append_file.go:267-296 | a full segment is synced, closed and followed by a new one, with every way to fail |
| WalFiles.AppendFileStorage.PurgeUpTo | src/wal/storage/append_file.go:180-204 | exactly the leading older segments at or below the checkpoint go, as far as removal succeeds |
| WalFiles.AppendFileStorage.WaitDurable | src/wal/wal.go:69-98 | a lone waiter ends after at most one fsync, with nil exactly for a flushed number, and certainly if the fsync succeeds |
| WalFiles.RunBatch | src/engine/write_queue.go:46-86 | with at most one wait for a whole batch, and none without a synchronous record: a refused request is not acknowledged, a synchronous nil is given only for a durable record, an asynchronous one exactly for a record that is in the log, and if the fsync succeeds every applied request is acknowledged |
| Memtable.Memtree.constructor | src/memtable/btree.go:24-32 | an empty tree of an order of at least two |
| Memtable.Memtree.Get | src/memtable/btree.go:38-57 | map lookup: the value of the key, and nothing for a missing key or a tombstone |
| Memtable.Memtree.Add | src/memtable/btree.go:59-79 | the map update; sorted keys, degree bounds, equal leaf depth and the byte count are kept |
| Memtable.Memtree.GrowRoot | src/memtable/btree.go:68-72 | splitting a full root changes no contents and leaves room |
| Memtable.Memtree.GetSize | src/memtable/btree.go:34-36 | the summed length of all keys and values |
| Memtable.Memtree.ToRaw | src/memtable/btree.go:186-190 | the one sorted listing of the map, tombstones included |
| Memtable.Memtree.TakeSnapshot | src/memtable/btree.go:210-215 | hands out the listing and leaves an empty tree |
| Memtable.Memtree.AddAll | src/memtable/btree.go:59-79 | any run of additions to the tree is the same run of map updates |
| Memtable.LastAdditionCounts | src/memtable/btree.go:59-79 | of several additions of a key the last one counts |
| Memtable.ImmutableGet | src/memtable/immutable.go:32-43 | binary search in the frozen copy is lookup with tombstones hidden |
| BTree.Node.Lookup | src/memtable/btree.go:85-97 | descending finds what a linear search of the in-order reading finds |
| BTree.Node.UpdateExisting | src/memtable/btree.go:99-111 | overwrites in place a key that is there and changes nothing otherwise |
| BTree.Node.InsertNonFull | src/memtable/btree.go:113-139 | the in-order reading gains the entry, the height stays, the node grows by at most one key, and only fresh nodes are added |
| BTree.Node.SplitChild | src/memtable/btree.go:141-166 | the full child becomes two of order - 1 keys around the middle entry, in place, with a fresh sibling |
| BTree.Node.Collect | src/memtable/btree.go:192-202 | appends the in-order reading |
| BTreeSpec.SplitReads | src/memtable/btree.go:141-166 | splitting a child changes nothing in the in-order reading |
| BTreeSpec.Descend | src/memtable/btree.go:42-57 | below the slot of a key, searching and putting go on in that child alone |
| SortedList.PutIsUpdate | src/memtable/btree.go:59-79 | putting into a sorted list keeps it sorted and is the map update |
| SortedList.ListingUnique | src/memtable/btree.go:186-202 | a map has one sorted listing |
| SortedList.PutWeight | src/memtable/btree.go:60-65 | the summed length changes by the new entry and the one it replaces |
| TableCodec.ReadEntryBack | src/sstable/reader.go:285-308 | an entry is read back from the front of what follows it |
| TableCodec.SerializeIndex | src/service/ss_parser/ss_parser_utils.go:37-45 | the index bytes are the entries' encodings in order |
| TableCodec.ReadIndex | src/sstable/reader.go:310-332 | the parsing loop with its two errors and its tolerance for a short tail |
| TableCodec.IndexRoundTrip | src/sstable/reader.go:310-332 | parsing gives back every serialised index |
| TableCodec.EntryLayout | src/service/ss_parser/ss_parser_utils.go:20-35 | key length, key, value length, value |
| TableCodec.IndexLayout | src/service/ss_parser/ss_parser_utils.go:37-45 | key length, key and offset of each entry in turn |
| TableBlocks.CleanOfBlock | src/sstable/reader.go:274-283 | the clean part of a written block is its data |
| TableBlocks.ReadDataBlock | src/sstable/reader.go:235-254 | the unit at an offset: one block or a jumbo run, or an error |
| TableBlocks.ReadJumboForward | src/sstable/reader.go:256-272 | the loop joins the blocks of a jumbo entry up to its end |
| TableBlocks.UnitBack | src/sstable/reader.go:235-283 | wherever it stands, a unit reads back as the data it was written from |
| TableBlocks.BlockLayout | src/service/file_writer/writer.go:124-146 | data, zeros, the used count in two bytes, the kind |
| TableBlocks.UnitKinds | src/service/file_writer/writer.go:85-90 | data that fit stand in one block of kind 0, longer data in a run of kinds 1, 3, .., 3, 7 |
| TableBlocks.ReadsIff | src/sstable/reader.go:235-272 | a unit can be read exactly from a block of kind 0 or 7, or of kind 1 with a block of kind 7 somewhere behind it |
| TableBlocks.UnitsReadBackIff | src/service/file_writer/writer.go:124-146 | units read back for all data exactly when the block size is at most 65538 |
| TableWriter.CutJumbo | src/service/file_writer/writer.go:154-189 | the blocks of an oversized entry with their marks |
| TableWriter.FileWriter.Write | src/service/file_writer/writer.go:92-114 | which block or run the data joins, and the number of the first block that holds it |
| TableWriter.PackedGreedily | src/service/file_writer/writer.go:92-122 | data join the current block exactly when they fit, and otherwise begin a new one or a run of their own |
| TableWriter.FileWriter.FlushCurrentBlock | src/service/file_writer/writer.go:124-146 | a started block becomes a unit of the file |
| TableWriter.FileWriter.WriteJumboData | src/service/file_writer/writer.go:148-194 | an oversized entry becomes a unit of its own |
| TableWriter.FileWriter.WriteRaw | src/service/file_writer/writer.go:196-210 | bytes go behind the blocks at the returned offset |
| TableIndex.SerializeDataBuildIndex | src/service/ss_parser/ss_parser_utils.go:20-35 | the entries in groups, one per unit, and an index with the first key and offset of each group |
| TableReader.WrittenHolds | src/sstable/reader.go:235-283 | every group of a written file is read back from where the index points |
| TableReader.Get | src/sstable/reader.go:91-120 | what a linear search of the list finds |
| TableReader.ScanAll | src/sstable/reader.go:216-233 | exactly the list |
| TableScans.RangeScan | src/sstable/reader.go:175-210 | exactly the entries with keys from start to end, both included |
| TableScans.PrefixScan | src/sstable/reader.go:122-173 | exactly the entries whose keys have the prefix |
| TableScans.PickedRange | src/sstable/reader.go:175-210 | entry by entry, what a range scan picks |
| TableScans.PickedPrefix | src/sstable/reader.go:122-173 | entry by entry, what a prefix scan picks |
| TableScans.PastPrefixIff | src/sstable/reader.go:122-173 | the scan stops at the first key above the prefix that does not have it |
| Bloom.BloomFilter.Add | src/models/bloom_filter/filter.go:43-49 | marks the cell of every hash function and clears none |
| Bloom.BloomFilter.AddMultiple | src/models/bloom_filter/filter.go:51-60 | adds every key in turn |
| Bloom.Check | src/models/bloom_filter/filter.go:109-117 | true exactly when every hash function finds its cell marked |
| Bloom.NoFalseNegatives | src/models/bloom_filter/filter.go:43-117 | whatever was added is found, whatever else was added |
| Bloom.AnswersYesIff | src/models/bloom_filter/filter.go:43-117 | a filter says yes exactly when each cell of the string was hit by something added, so that false positives are collisions and nothing else |
| Bloom.FilterRoundTrip | src/models/bloom_filter/filter.go:119-189 | a filter survives being written and read |
| Bloom.AddAllPrefixes | src/models/bloom_filter/prefixfilter.go:37-56 | adds the prefixes of every key between the two lengths |
| Bloom.PrefixesAre | src/models/bloom_filter/prefixfilter.go:37-49 | the prefixes added are exactly those with a length between the two limits |
| Bloom.PrefixContains | src/models/bloom_filter/prefixfilter.go:58-73 | short prefixes may always be there, long ones are cut |
| Bloom.PrefixCompleteIff | src/models/bloom_filter/prefixfilter.go:37-73 | no prefix of an added key is ruled out, exactly when the minimum length does not exceed the maximum |
| TableFile.FooterRoundTrip | src/service/ss_parser/ss_parser_utils.go:58-68 | the footer reads back |
| TableFile.FiltersRoundTrip | src/sstable/reader.go:334-364 | both filters read back from the filter section |
| TableFile.FilterStrings | src/service/ss_parser/ss_parser_utils.go:47-56 | the filter section is the key filter, the prefix filter and the digest, each behind its length |
| TableFile.FooterLayout | src/service/ss_parser/ss_parser_utils.go:58-68 | seven numbers of eight bytes, the last one the magic number |
| TableFile.FileLayout | src/service/ss_parser/ss_parser.go:22-52 | blocks, index, filters and a footer that points to them |
| TableFile.OpenSections | src/sstable/reader.go:33-87 | opening a file gives back the index and filters its sections encode |
| TableFile.FlushMemtable | src/service/ss_parser/ss_parser.go:22-52 | the whole file, section by section, with the number of entries and the largest record number; opened again it stands for the entries it was flushed from |
| TableFile.FlushedStands | src/sstable/reader.go:33-87 | a flushed file opens, its blocks hold the list and its filters rule out nothing in it |
| TableFile.Get | src/sstable/reader.go:91-120 | lookup through an open table is linear search of the list |
| TableFile.RangeScan | src/sstable/reader.go:175-210 | the range scan of an open table: exactly the entries of the list from start to end, both included |
| TableFile.PrefixScan | src/sstable/reader.go:122-173 | the prefix scan of an open table, through the prefix filter: exactly the entries of the list with the prefix |
| TableFile.ScanAll | src/sstable/reader.go:216-233 | the full scan of an open table |

## Left out

- Compaction, version files and pinned files (src/engine/engine.go:150-239): reads and purging are modelled with compaction off.
- Reopening a log after a torn tail, the log cursor and subscriptions: the crash model ends with the first recovery.
- Recovery into the engine (replay into memtables and its flush path): Recovery ends with the list of replayed records and the tables that are left.
- The other memtables (hash map, skip list), `Scan` with a predicate, the block cache and the table cache: they would repeat easier versions of the same statements.
- Bloom filter sizing, HyperLogLog, count-min sketch, simhash and the token bucket: floating-point estimates; filter sizes are parameters.
- Transport, codecs of messages, background loops, metrics and configuration loading.
- Record numbers beyond 2^64 - 1, records of 4 GiB or more, table files of 2^63 bytes or more: excluded by the preconditions of the log and file models. A length field of 2^63 or more, which no writer produces, counts as truncated.
- Membership.Table.Merge: the time a member was last seen is not modelled, and the membership epoch does not wrap.
- Swim.StepKeepsInv: one direction of Swim.OwnershipIff, for nodes that cannot probe themselves and incarnations that do not overflow.
- Quorum.QuorumReadSeesWrite: a node's copy is taken to change only to a causally newer version, which repair guarantees and a plain store of an older write does not.
- RepairWalk.RepairRange: the replicas change only through the walk while it runs, and errors are told apart from success but not from each other.
- TabletScheduler.Scheduler.Tick: size estimates and split boundaries come from the store as parameters, which may fail; each range is examined once per tick, as in the source, but the store does not change in between.
- WalFiles.RunBatch: acknowledgements of one batch are modelled as a list, so their order in time is not captured, and the memtable insertion is the subject of EngineReads.
- WalFiles.AppendFileStorage.RotateIfNeededLocked: after a failed close the file may still accept writes in the model, which allows more behaviour than the system has.
- GroupCommit.AckedSurvives: one direction of GroupCommit.SurvivesIff, under the condition that failing writes leave nothing behind.
- TableFile.FlushMemtable: for an empty memtable the filters would have no cells; the model asks for at least one cell, and the block size given to the writer is the configured one.
