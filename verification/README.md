# BashfulDB in Dafny

BashfulDB is a replicated document store in the style of Dynamo. This project models the parts of it
that are hard to get right and proves what they are meant to guarantee: quorum replication with
conflict resolution, read repair and hinted handoff; hybrid logical clocks and vector clocks; gossip
membership and the consistent-hashing ring; the binary document codec; the wire protocol's parser and
serializer; and the schema log with its index materializer over the in-memory storage engine.

Code that changes state in the original is imperative here: classes with `modifies` clauses, and
methods with loops, each proved against a specification function. What the system promises is then
proved about those functions, and, where it is a promise about many operations, about every run of a
step system. Network failures, disk errors, clock readings, completion orders, node identifiers, ring hashes, panics
and the suspicions of the failure detector are parameters: the results hold for all of them.

`dafny verify dfyconfig.toml` checks the whole project.

## Main results

**Replication.**
- A write or delete succeeds exactly when at least W different nodes hold its record on return: owners
  that acknowledged it, and pairwise different non-owners that keep it as a hint for pairwise different
  failed owners. Otherwise the reported shortfall is exact (`Coordinator.WrittenMeansHeld`).
- In every run of one coordinator over the stores, with a fixed set of owners, arbitrary failures, any of a
  read's repairs landing before the next operation, hints delivered in time, nothing else stored under the
  key and R + W > N, a read that hears from R owners returns a version equal to or causally after that of the
  last write or delete which W owners acknowledged, and exactly its document if the versions are equal
  (`CoordinatorRun.EveryReadIsFresh`). In time means that a hint replaces no causally later copy. A late hint
  makes a record that every read finds unsure exactly when it is causally before that record, replaces a copy
  of it or of a later one, and none of these can be spared (`CoordinatorRun.HintLosesExactly`).
- A write that succeeds with the help of hints is worth less at first: right after it, every read of R owners
  is sure to find it exactly when the owners it reached, without the hints, and R together exceed N
  (`Sloppy.SeenExactly`), and a success on hints alone may be seen by no read at all (`Sloppy.SuccessUnseen`).
  Hinted handoff makes up for it: once the counted hints have been delivered in time, every later read of R
  owners returns the write or a causally later one (`Sloppy.HandoffCompletesQuorum`). They have been delivered when
  the stand-ins no longer keep them, unless one was too old or lost otherwise (`Sloppy.GoneCompletesQuorum`).
- With any number of coordinators, and with repairs, hints and late requests landing at any time, a read
  returns the last acknowledged record or one issued after it under two conditions
  (`QuorumRun.ReadsAreFresh`). First, no background write replaces a copy issued later; given the second
  condition for all copies, whether every read finds a record is then exact in the number of owners that hold
  it or a later one (`QuorumRun.FreshExactly`). Second, the answer issued last outranks the others: it has the later
  clock value, except that between two coordinators a tombstone outranks a document. This is exactly when a
  read gives the answer issued last in every order (`QuorumRun.LatestWinsExactly`). The code does not ensure
  it, as coordinators tick only their own clocks and never look at each other's.
- Three concrete runs lose an acknowledged write: to a repair that lands late
  (`QuorumRun.LateRepairLosesWrite`), to another coordinator's earlier delete
  (`QuorumRun.DeleteShadowsLaterWrite`), and to another coordinator's faster clock
  (`QuorumRun.SlowClockHidesLaterWrite`).
- Responses resolve to one winner in every order exactly when one of them wins against every other
  (`Resolver.OrderIndependence`). Resolution is not transitive (`Resolver.ResolutionCycles`).
- Once the repairs of a read are stored, a second read of the same replicas settles exactly when no copy
  that the first one saw was causally after its winner (`Settling.StoresSettleExactly`).
- Over any stores, passes, failures and other traffic, a hint is still held, or its target has accepted the
  same key, document, version and clock value since, or a pass found it more than 24 hours old, or a
  different hint with the same target, clock value and object id was stored over it (`HintRun.NoLostHint`).

**Clocks.** Happened-before implies a strictly smaller timestamp over every distributed run, also with
clocks that go backward (`ClockRun.HappenedBeforeOrdersStamps`).

**Cluster.** Over every gossip run with loss, duplication and reordering, states move along edges of the
transition graph and members are never forgotten (`Gossip.RunMoves`). No stamp goes back exactly when every
local change to a known record finds its generation below the 64-bit maximum or brings a clock value that
does not go back (`Gossip.RunRisesExactly`). The cached ring agrees with the healthy members after every
operation although it is rebuilt only after some, so hosts that agree on who is healthy agree on the owners
of every key, if no two of these nodes share a ring position (`Membership.RingsAgree`). The owners of a key
come in the order of their clockwise distance from it (`Ring.OrderedByDistance`), and removing a node from the
ring strikes it out of every key's owner order and changes nothing else (`Ring.RemovalMovesLittle`). Gossip never
touches an address: over every run it is the one a host was last told locally (`Gossip.RunAddresses`).
Gossip does not always spread a state. Whatever the network does, a host comes to hold a record of a member only
if a chain of records that are held or in flight leads there, each of which is taken over after the one before
(`Learning.LearnsOnly`). Such a chain is enough, in a run without loss or duplication in which every message is
answered, if its records are held by hosts that list the learner or are listed by it, or are in flight to it
(`Learning.LearnsWhenOffered`). So where these are all the records about, as when every host lists the learner and
nothing is in flight, the chain is exact for one host (`Learning.LearnsExactly`), and for all of them together where
they all list each other (`Learning.AllLearnExactly`). Hosts that nobody can reach never learn anything
(`Stuck.CutOffForever`).

For all members at once: gossip never changes any table again exactly when no host takes over a record that is in
flight to it or held by a host it can exchange messages with (`Quiescence.RestExactly`). Only so many changes are
possible in any run (`Convergence.ChangesBounded`), and some run leads to rest from every cluster
(`Convergence.Settles`). If all hosts list each other, of any two records of a member one is taken over after the
other, and hosts that do not know a member would take it over, then at rest they agree about every member, on a record
not older than any that was held (`Convergence.Converges`). Without that, what can be learned about each member cannot always be learned about all
(`Joint.JointExample`). One exchange makes two hosts say the same about a member exactly when they already did or one
of them takes over the other's record (`Exchange.ExchangeAgreesExactly`). As every message is answered, messages never
die out: without loss and clock failures each round of gossip leaves one more of them in flight
(`Traffic.TrafficExactly`).

**Codecs.** Decoding inverts encoding in front of any bytes, and encoding succeeds exactly within the documented
limits (`CodecLaws`). A document cut short anywhere is reported as such (`CodecLaws.PrefixIsShort`). A list of
responses is read back as its frames, in whatever pieces the stream arrives, exactly when each response fits the
limits (`RespLaws`, `RespIo`). The bytes of a stream so far settle a frame and every error but the end of the
input (`RespStream.FrameSettles`).

**Schema.** Replaying any log leaves exactly the indexes created and not dropped later, and catching up by
overlapping stretches equals one full replay (`SchemaLog`). Materializing adds one row per indexable
object wherever the batches fall, and dropping undoes it (`Materializer`). A lookup by value in a fresh index
finds exactly the objects that have the value (`Materializer.LookupsFindObjects`).

## Where code and comments differ

- The rule "delete wins" holds between concurrent versions only. As a write starts from an empty vector
  clock, two writes by different coordinators are always concurrent, whatever the order in which they
  happened; a delete can therefore hide a write that was acknowledged after it, and a slow clock can make a
  write lose to an earlier one.
- A restored clock is documented to start at least one tick ahead of the persisted value. It starts at
  that very value when the counter is saturated and no time has passed; its next tick is ahead in every
  case (`HybridClock.RestoreIsAhead`).
- The comment on hint keys suggests that a key identifies a hint. Its collection is not part of it
  (`HintRun.OverwrittenExactly`).
- Malformed input is documented to give an error. The parser panics instead exactly when a header line that
  starts with a character of several bytes stands where the announced counts lead, through frames that can be
  read and within the nesting limit (`RespStream.PanicsExactly`, `RespStream.PanicExample`).
- A success reported for a write counts hints as acknowledgements, and such a write need not be readable until
  its hints are delivered (`Sloppy.SeenExactly`).
- Gossip is meant to spread states, but a host that missed one state of a node can refuse the next, and then
  keeps the old one as long as nothing else is issued, although all hosts list each other
  (`Stuck.MissedStateExample`).
- A batch of schema entries that fails on a bad name can leave entries before it applied while the
  published version stays behind. This happens exactly when the first new entry has valid names and a later
  one that would advance the version has not (`SchemaLog.MidwayExactly`, `SchemaLog.StopsMidwayExample`).
- Object keys are read as text when an index is built. Keys that are not UTF-8 can therefore share a row,
  exactly when they read as the same object id with the same indexed value
  (`Materializer.RowsCoincideExactly`, `Materializer.LossyKeysCollide`).

## Model

| member | source | states |
|---|---|---|
| `Coordinator.WrittenMeansHeld` | crates/bashfuldb-replication/src/coordinator.rs:205-254 | success exactly when at least W different counted nodes hold the record, in place or as a hint; the reported counts and the shortfall are exact |
| `Coordinator.DurableCount` | crates/bashfuldb-replication/src/coordinator.rs:205-254 | acknowledging owners and stand-ins are disjoint, so as many different nodes hold the record as were counted |
| `Sloppy.HintsAskedFor` | crates/bashfuldb-replication/src/coordinator.rs:337-362 | no hints when W owners acknowledged; otherwise at most W, at most one for each failed owner and at most one on each other node, and exactly the least of these when all of these nodes answer |
| `Coordinator.QuorumCoordinator.Replicate` | crates/bashfuldb-replication/src/coordinator.rs:205-254 | exactly the owners reached hold the record in place and no other document changes; stand-ins are asked only below W acknowledgements; the outcome counts both |
| `Coordinator.QuorumCoordinator.StampAndReplicate` | crates/bashfuldb-replication/src/coordinator.rs:259-306 | a failed tick changes nothing; otherwise the version is the single entry of the new clock value and is replicated |
| `Coordinator.QuorumCoordinator.QuorumWrite` | crates/bashfuldb-replication/src/coordinator.rs:180-255 | a remembered idempotency key replays or conflicts with no effect on stores and clock; otherwise the write is attempted and its result remembered exactly on success |
| `Coordinator.QuorumCoordinator.QuorumDelete` | crates/bashfuldb-replication/src/coordinator.rs:259-307 | a delete is the attempt to write a tombstone |
| `Coordinator.QuorumCoordinator.Collect` | crates/bashfuldb-replication/src/coordinator.rs:89-108 | the responses are the copies of exactly the owners that answered, in order of completion |
| `Coordinator.QuorumCoordinator.QuorumRead` | crates/bashfuldb-replication/src/coordinator.rs:78-176 | no owner or fewer than R answers fail with the exact count; otherwise the answers alone decide document, version and the replicas to repair |
| `Coordinator.QuorumCoordinator.Repair` | crates/bashfuldb-replication/src/coordinator.rs:149-169 | exactly the reachable stale replicas store the winner |
| `Coordinator.Request` | crates/bashfuldb-replication/src/coordinator.rs:198-212 | the version is an empty vector clock incremented once, and what is stored is a tombstone exactly for a delete |
| `Coordinator.RepairStoresWinner` | crates/bashfuldb-replication/src/coordinator.rs:155-163 | a repair stores the winner itself exactly when it is a tombstone just if it has no document |
| `FanOut.BroadcastWrite` | crates/bashfuldb-replication/src/coordinator.rs:367-395 | acknowledged and failed targets in completion order, panicked tasks in neither; exactly the targets reached store the request |
| `FanOut.SelectInOrder` | crates/bashfuldb-replication/src/coordinator.rs:378-393 | the listed targets stand in completion order, none left out |
| `FanOut.StoreSloppyHints` | crates/bashfuldb-replication/src/coordinator.rs:317-363 | one hint for each of the first W failed owners as far as there are non-owners; counted stand-ins are pairwise different, not owners, and keep the record for pairwise different failed owners |
| `FanOut.HintsAtFacts` | crates/bashfuldb-replication/src/coordinator.rs:340-361 | the i-th stand-in keeps the hint for the i-th failed owner; no other node changes |
| `FanOut.StandInsHold` | crates/bashfuldb-replication/src/coordinator.rs:340-361 | every acknowledged stand-in holds the record under a key naming the owner it stands in for |
| `Idempotency.ReplayWindow` | crates/bashfuldb-replication/src/idempotency.rs:46-79 | after a write is remembered, and whatever happens under other keys, the same document gets the first result and another one a conflict, exactly for less than 15 minutes |
| `Idempotency.NotYetForgotten` | crates/bashfuldb-replication/src/idempotency.rs:77-79 | a clock that went back forgets nothing |
| `Idempotency.IdempotencyStore.Get` | crates/bashfuldb-replication/src/idempotency.rs:46-60 | looks up after evicting what has expired |
| `Idempotency.IdempotencyStore.Store` | crates/bashfuldb-replication/src/idempotency.rs:63-75 | remembers the result after evicting what has expired |
| `CoordinatorRun.EveryReadIsFresh` | crates/bashfuldb-replication/src/coordinator.rs:78-308 | in every run of one coordinator, with arbitrary failures, with repairs landing within the read and hints delivered in time, R + W > N makes every read that hears from R owners return a version equal to or causally after the last one that W owners acknowledged, and exactly that document if equal |
| `CoordinatorRun.RunKeeps` | crates/bashfuldb-replication/src/coordinator.rs:78-308 | at every moment of every such run W owners hold the last acknowledged record or a later one, and every record is this coordinator's |
| `CoordinatorRun.NextKeeps` | crates/bashfuldb-replication/src/coordinator.rs:78-308 | every action of such a run keeps this invariant, and no owner goes back behind a record it had reached |
| `CoordinatorRun.ReadCovers` | crates/bashfuldb-replication/src/coordinator.rs:78-176 | with R + W > N a read of R owners returns any record that W owners have reached or a causally later one, and exactly its document if the versions are equal |
| `CoordinatorRun.DeliverKeeps` | crates/bashfuldb-replication/src/replica.rs:147-204 | a hint that a delivery pass hands over in time keeps the invariant |
| `CoordinatorRun.HintLosesExactly` | crates/bashfuldb-replication/src/replica.rs:147-204 | on the stores of one coordinator's run: a delivered hint ends that every read of R owners finds a record exactly when it is causally before the record, replaces a copy that counts, and none of these can be spared |
| `CoordinatorRun.PutKeeps` | crates/bashfuldb-replication/src/coordinator.rs:180-307 | a write or delete, successful or not, keeps the invariant |
| `CoordinatorRun.GetKeeps` | crates/bashfuldb-replication/src/coordinator.rs:78-176 | a read keeps it, whichever of its repairs land |
| `QuorumRun.ReadsAreFresh` | crates/bashfuldb-replication/src/coordinator.rs:78-308 | over every run of any number of coordinators with R + W > N, in which no background write replaces a copy issued later, a read whose answer issued last outranks the others (later clock value, or a tombstone against another coordinator's document) returns the last record that W owners acknowledged or one issued after it that does not causally precede it, and that very one if nothing was issued after it |
| `QuorumRun.FreshExactly` | crates/bashfuldb-replication/src/coordinator.rs:78-176 | when of any two copies the one issued later outranks the other, every read of R owners finds a given record or one issued after it exactly when more than all but R owners hold one |
| `QuorumRun.LandCover` | crates/bashfuldb-replication/src/replica.rs:60-70 | a background write makes its owner hold a record or a later one, or cease to, exactly by whether it was issued before that record |
| `QuorumRun.LandLosesExactly` | crates/bashfuldb-replication/src/replica.rs:60-70 | when every read of R owners finds a record, a background write ends that exactly when it was issued before the record, replaces a copy that counts, and none of these can be spared |
| `QuorumRun.NewCover` | crates/bashfuldb-replication/src/coordinator.rs:214-216 | a new record is held by exactly the owners it reached |
| `QuorumRun.StepGrows` | crates/bashfuldb-replication/src/replica.rs:49-97 | no write, and no background write in time, makes an owner go back behind a record it had reached |
| `QuorumRun.RunInv` | crates/bashfuldb-replication/src/replica.rs:49-97 | over every run in which no background write replaces a copy issued later, and whatever the coordinators' clocks do to each other, W owners go on holding the last acknowledged record or one issued after it |
| `QuorumRun.WinsExactly` | crates/bashfuldb-replication/src/coordinator.rs:414-435 | of two written records one wins in either order exactly when it outranks the other: by clock value, except that between two coordinators a tombstone outranks a document |
| `QuorumRun.LaterWinsExactly` | crates/bashfuldb-replication/src/coordinator.rs:414-435 | among the records of a run the same holds, and of one coordinator's records the one issued later outranks the other |
| `QuorumRun.LatestWinsExactly` | crates/bashfuldb-replication/src/coordinator.rs:405-435 | a read gives the answer issued last, in every order of the answers, exactly when that answer outranks all the others |
| `QuorumRun.OneCoordinator` | crates/bashfuldb-replication/src/coordinator.rs:198-203 | with one coordinator the answer issued last outranks all the others |
| `QuorumRun.LaterIsCausal` | crates/bashfuldb-replication/src/coordinator.rs:198-203 | of one coordinator's records the later is the causally later, and equal versions are the same record |
| `QuorumRun.WinnerNotOlder` | crates/bashfuldb-replication/src/coordinator.rs:132-147 | when the answer issued last outranks the others, the winner was not issued before any copy the read has seen |
| `QuorumRun.DeleteShadowsLaterWrite` | crates/bashfuldb-replication/src/coordinator.rs:414-435 | a run in which a write acknowledged by W owners is hidden by another coordinator's earlier delete |
| `QuorumRun.SlowClockHidesLaterWrite` | crates/bashfuldb-replication/src/coordinator.rs:199-203 | a run in which a write acknowledged by W owners loses, in every order of the answers, to an earlier one of a coordinator with a faster clock |
| `QuorumRun.LateRepairLosesWrite` | crates/bashfuldb-replication/src/replica.rs:60-70 | a possible run in which a read repair that lands late takes an acknowledged write away again |
| `Sloppy.SeenExactly` | crates/bashfuldb-replication/src/coordinator.rs:231-254 | right after a write or delete every read of R owners finds it exactly when the owners it reached, not counting hints, and R together exceed the owners |
| `Sloppy.HintsAloneSucceed` | crates/bashfuldb-replication/src/coordinator.rs:231-254 | with no owner in reach a write is still reported as a success when W other nodes keep hints for it |
| `Sloppy.SuccessUnseen` | crates/bashfuldb-replication/src/coordinator.rs:231-254 | a successful write after which every read of the owners, all of them included, finds nothing |
| `Sloppy.CountedOwners` | crates/bashfuldb-replication/src/coordinator.rs:337-362 | the owners that acknowledged a successful write and those its hints are for are at least W different owners |
| `Sloppy.HandoffFillsQuorum` | crates/bashfuldb-replication/src/replica.rs:134-207 | once the hints of a successful write have been delivered in time, at least W owners hold it or a later record |
| `Sloppy.HandoffCompletesQuorum` | crates/bashfuldb-replication/src/replica.rs:134-207 | from then on, with R + W > N, every read that hears from R owners returns its version or a causally later one, and exactly its document if equal |
| `Sloppy.GoneIsDelivered` | crates/bashfuldb-replication/src/replica.rs:134-207 | counted hints that their stand-ins no longer keep were handed over, unless a pass found one too old or something other than a pass took it away |
| `Sloppy.GoneCompletesQuorum` | crates/bashfuldb-replication/src/replica.rs:134-207 | so once no stand-in keeps its hint, and none was spoilt in this way, every read that hears from R owners returns the write or a causally later one |
| `QuorumLink.WriteIsStep` | crates/bashfuldb-replication/src/coordinator.rs:180-307 | the coordinator's writes and deletes, stamped by its clock, are the write steps of the runs above, in copies, records and last acknowledged record; without a clock value nothing changes |
| `QuorumLink.ReadIsRead` | crates/bashfuldb-replication/src/coordinator.rs:78-108 | its reads are the reads of the runs above |
| `QuorumLink.RepairIsLandings` | crates/bashfuldb-replication/src/coordinator.rs:149-169 | its repairs are the background writes of the runs above |
| `QuorumLink.PromptRepairInTime` | crates/bashfuldb-replication/src/coordinator.rs:149-169 | repairs that land before the next operation replace no newer copy |
| `Settling.StoresSettleExactly` | crates/bashfuldb-replication/src/coordinator.rs:118-175 | once the repairs of a read are stored, a read of the same replicas, in any order of answers, finds the same version and nothing to repair exactly when no copy seen first was causally after the winner |
| `Settling.CoherentStoresSettle` | crates/bashfuldb-replication/src/coordinator.rs:118-175 | from coherent copies the second read returns the same document and version with zero repairs |
| `Settling.AnswersAfterRepair` | crates/bashfuldb-replication/src/replica.rs:60-97 | after the stale replicas stored the winner, the replicas answer as before with the winner in place of what needed repair |
| `ReadRepair.RepairSettlesExactly` | crates/bashfuldb-replication/src/coordinator.rs:118-175 | the same on answers: with the winner in place of those that needed repair, they give the same version and need no repair exactly when none was causally after the winner |
| `ReadRepair.CoherentSettles` | crates/bashfuldb-replication/src/coordinator.rs:118-175 | the same for coherent answers, which settle on the same document and version |
| `ReadRepair.OutcomeMeans` | crates/bashfuldb-replication/src/coordinator.rs:110-175 | too few answers fail with both numbers; answers without any copy find nothing; otherwise the winner is found with the number of replicas to repair |
| `ReadRepair.StaleExactly` | crates/bashfuldb-replication/src/coordinator.rs:134-148 | the replicas to repair are, in the order of their answers, those without a copy and those whose copy lacks something the winner knows |
| `ReadRepair.PresentExactly` | crates/bashfuldb-replication/src/coordinator.rs:118-125 | the copies compared are those of the answers that have one, in order |
| `ReadRepair.SettlingCanFail` | crates/bashfuldb-replication/src/coordinator.rs:132-147 | three responses for which the second read finds another version |
| `Resolver.ResolveConflict` | crates/bashfuldb-replication/src/coordinator.rs:405-412 | the loop folds pairwise resolution and returns one of the responses |
| `Resolver.SecondWinsExactly` | crates/bashfuldb-replication/src/coordinator.rs:414-435 | of two versions the second displaces the first exactly when it knows at least as much of every node and more of some, or when neither does and it alone is a tombstone or, both or none being one, it has the later clock value; the first one keeps ties |
| `Resolver.OrderIndependence` | crates/bashfuldb-replication/src/coordinator.rs:405-435 | all orders give the same winner exactly when one response wins against every other in either order |
| `Resolver.SameWinnerIsChampion` | crates/bashfuldb-replication/src/coordinator.rs:405-435 | a winner common to all orders wins against every other response |
| `Resolver.CoherentWinner` | crates/bashfuldb-replication/src/coordinator.rs:405-435 | coherent responses resolve to the newest tombstone, else the newest document, and none is causally after it |
| `Resolver.ChainWinner` | crates/bashfuldb-replication/src/coordinator.rs:405-435 | among causally ordered responses the last one wins |
| `Resolver.ResolutionCycles` | crates/bashfuldb-replication/src/coordinator.rs:414-435 | three versions that beat each other in a circle, so that the order of responses decides |
| `Replica.ReplicaStore.constructor` | crates/bashfuldb-replication/src/replica.rs:30-32 | a new replica holds nothing |
| `Replica.ReplicaStore.StoreHint` | crates/bashfuldb-replication/src/replica.rs:111-127 | keeps the record under the key made of target, clock value and object id |
| `Replica.ReplicaStore.HandleWrite` | crates/bashfuldb-replication/src/replica.rs:49-74 | a hint without a target is refused and, like a failing disk, changes nothing; a hint is kept; anything else overwrites the document with a live record |
| `Replica.ReplicaStore.HandleDelete` | crates/bashfuldb-replication/src/replica.rs:77-97 | as above, with a tombstone |
| `Replica.ReplicaStore.HandleRead` | crates/bashfuldb-replication/src/replica.rs:100-108 | the copy under the key, if any; fails when the engine does or the bytes do not decode |
| `Replica.Dispatch` | crates/bashfuldb-replication/src/simulated.rs:152-159 | what is stored is a tombstone exactly when the request carries no document |
| `Replica.Network.RemoteWrite` | crates/bashfuldb-replication/src/simulated.rs:120-159 | an unreachable node or a failing disk changes nothing; otherwise only the target changes; a failed request may have been stored |
| `Replica.Network.RemoteRead` | crates/bashfuldb-replication/src/simulated.rs:161-164 | the target's copy, if it can be reached and answers |
| `Replica.StoredKeepsWellFormed` | crates/bashfuldb-replication/src/replica.rs:49-127 | no request can store a tombstone with a document or a hint under a key that is not its own |
| `Replica.ToBytesInjective` | crates/bashfuldb-replication/src/lib.rs:49-52 | storage keys tell documents apart |
| `Replica.ToBytesSplits` | crates/bashfuldb-replication/src/lib.rs:49-52 | up to the slash a storage key is the collection, after it the text of the object id |
| `Replica.HintKeyRoundTrip` | crates/bashfuldb-replication/src/replica.rs:146-171 | parsing a hint key inverts building it |
| `Replica.HintKeyInjective` | crates/bashfuldb-replication/src/replica.rs:211-217 | hint keys tell target, clock value and object id apart |
| `Text.ParsePrintedU64` | crates/bashfuldb-replication/src/replica.rs:163-169 | the clock value of a key is read exactly within the unsigned 64-bit range |
| `Text.HexText` | crates/bashfuldb-replication/src/replica.rs:216-216 | ids are written with two lower-case hexadecimal digits for each byte, the higher first |
| `Text.HexValues` | crates/bashfuldb-replication/src/replica.rs:156-162 | hexadecimal digits are read in either case |
| `Handoff.DeliverOne` | crates/bashfuldb-replication/src/replica.rs:147-204 | a hint that cannot be read, is too old or is acknowledged is deleted, unless the disk fails; any other stays |
| `Handoff.DeliverPendingHints` | crates/bashfuldb-replication/src/replica.rs:134-207 | of the hints the pass got through, exactly the readable, recent and unacknowledged ones remain; each acknowledged one was accepted by its target; nodes accept nothing else; the count is exact; the pass ends early exactly when a row cannot be read or a hint that has to go cannot be deleted |
| `Handoff.AgeDecides` | crates/bashfuldb-replication/src/replica.rs:172-203 | a readable hint stamped more than 86,400,000 ms before now goes and nobody is handed anything; otherwise, if its target answers, it goes and the target has accepted its record; otherwise it stays |
| `Handoff.PassByAge` | crates/bashfuldb-replication/src/replica.rs:145-206 | the same for every hint that a whole pass got through |
| `HintRun.NoLostHint` | crates/bashfuldb-replication/src/replica.rs:111-217 | over any stores, passes, failures and other traffic a hint is held at the end, or its target has since accepted the same key, document, version and clock value (a tombstone for a delete), or some pass found it unchanged and older than 24 hours, or a different hint with the same target, clock value and object id was stored over it |
| `HintRun.UndeliveredStays` | crates/bashfuldb-replication/src/replica.rs:134-207 | a hint is held at every moment of a run exactly when no step finds it too old, hears from its target or stores a different hint over it |
| `HintRun.StepKeeps` | crates/bashfuldb-replication/src/replica.rs:134-207 | a step takes a hint away exactly when a pass gets to it and finds it too old or hears from its target, which then has accepted it, or when a different hint is stored over it |
| `HintRun.OverwrittenExactly` | crates/bashfuldb-replication/src/replica.rs:111-127 | the first of two hints survives the second exactly when target, clock value or object id differ or they are the same hint |
| `HintRun.RunKeepsGoodHints` | crates/bashfuldb-replication/src/replica.rs:111-207 | every hint always sits under the key made from its own content |
| `Hlc.Pack` | crates/bashfuldb-clock/src/hlc.rs:36-60 | unpacking inverts packing |
| `Hlc.PackedOrder` | crates/bashfuldb-clock/src/hlc.rs:36-70 | the packed order is that of milliseconds, then counter, and packing inverts unpacking |
| `Hlc.HlcBytes` | crates/bashfuldb-clock/src/hlc.rs:72-80 | big-endian bytes sort in clock order and read back |
| `HybridClock.TickIsLeast` | crates/bashfuldb-clock/src/traits.rs:72-87 | a tick is the least value above the clock not before the reading, and fails exactly when there is none within the times seen |
| `HybridClock.UpdateIsLeast` | crates/bashfuldb-clock/src/traits.rs:89-126 | an update is the least value above both clocks not before the reading, and fails exactly when there is none within the times seen |
| `HybridClock.RestoreIsAhead` | crates/bashfuldb-clock/src/traits.rs:43-58 | a restored clock is ahead of the persisted value except with a saturated counter and no time passed; its next tick always is |
| `HybridClock.RestoreIsLeast` | crates/bashfuldb-clock/src/traits.rs:43-58 | otherwise a restored clock starts at the least value above the persisted one that is not before the reading |
| `HybridClock.TimeTooLarge` | crates/bashfuldb-clock/src/hlc.rs:36-39 | no operation of the clock takes a time beyond 48 bits |
| `HybridClock.WallClock.constructor` | crates/bashfuldb-clock/src/traits.rs:36-41 | starts at the reading with counter zero |
| `HybridClock.WallClock.FromPersisted` | crates/bashfuldb-clock/src/traits.rs:47-58 | starts at or after the persisted value |
| `HybridClock.WallClock.Tick` | crates/bashfuldb-clock/src/traits.rs:72-87 | moves the clock forward to the stamp, or on failure not at all |
| `HybridClock.WallClock.Update` | crates/bashfuldb-clock/src/traits.rs:89-126 | moves the clock past both values, or on failure not at all |
| `ClockRun.StepFacts` | crates/bashfuldb-clock/src/traits.rs:47-126 | an event moves only its own node's clock, and forward; a failed one moves nothing |
| `ClockRun.ClockCovers` | crates/bashfuldb-clock/src/traits.rs:47-126 | a stamp stays at or below its node's clock as long as it is remembered |
| `ClockRun.HappenedBeforeOrdersStamps` | crates/bashfuldb-cluster/src/gossip.rs:131-162 | over every run happened-before implies a strictly smaller stamp |
| `ClockRun.NeverAhead` | crates/bashfuldb-clock/src/traits.rs:72-126 | no clock carries a time beyond the largest one read or restored so far |
| `VectorClock.EqualMeansSame` | crates/bashfuldb-clock/src/vector_clock.rs:107-136 | Equal means the same component for every node, missing meaning zero |
| `VectorClock.OrderMeans` | crates/bashfuldb-clock/src/vector_clock.rs:107-136 | before, after and concurrent, component by component |
| `VectorClock.IncrementMeans` | crates/bashfuldb-clock/src/vector_clock.rs:64-80 | one component rises to the later value; 4096 entries take no new node |
| `VectorClock.MergeMeans` | crates/bashfuldb-clock/src/vector_clock.rs:82-104 | the later value of each component; failure exactly above 4096 nodes |
| `VectorClock.OrderLaws` | crates/bashfuldb-clock/src/vector_clock.rs:107-136 | comparison is reflexive and mirrored, Before is transitive, Equal clocks are interchangeable |
| `VectorClock.JoinedIsLub` | crates/bashfuldb-clock/src/vector_clock.rs:82-103 | the merge is the least upper bound |
| `VectorClock.MergeLaws` | crates/bashfuldb-clock/src/vector_clock.rs:82-103 | merging is commutative, associative and idempotent, failures included |
| `VectorClock.BuiltWithinCap` | crates/bashfuldb-clock/src/vector_clock.rs:64-103 | no sequence of operations builds a clock of more than 4096 entries |
| `VectorClock.Clock.IncrementNode` | crates/bashfuldb-clock/src/vector_clock.rs:64-77 | raises one entry, or fails on a full clock and changes nothing |
| `VectorClock.Clock.MergeFrom` | crates/bashfuldb-clock/src/vector_clock.rs:82-104 | becomes the merge, or fails and changes nothing |
| `VectorClock.Clock.Compare` | crates/bashfuldb-clock/src/vector_clock.rs:107-136 | the two-flag comparison gives the causal order |
| `Ring.AddThenRemove` | crates/bashfuldb-cluster/src/ring.rs:54-65 | adding a new node and removing it restores the ring exactly when none of its positions was taken |
| `Ring.FullOrderFacts` | crates/bashfuldb-cluster/src/ring.rs:71-100 | the clockwise walk meets every node of the ring once |
| `Ring.OwnersFacts` | crates/bashfuldb-cluster/src/ring.rs:71-100 | owners are distinct nodes of the ring and number min(n, nodes) |
| `Ring.OrderedByDistance` | crates/bashfuldb-cluster/src/ring.rs:68-101 | a node stands before another among the owners of a key exactly when its least clockwise distance from the key, modulo 2^64, is the smaller one |
| `Ring.FirstOwner` | crates/bashfuldb-cluster/src/ring.rs:81-98 | the first owner holds the least position at or after the key or, if there is none, the least position of the ring |
| `Ring.RemovalOrder` | crates/bashfuldb-cluster/src/ring.rs:63-100 | the order after a removal is the old order with the node struck out |
| `Ring.RemovalMovesLittle` | crates/bashfuldb-cluster/src/ring.rs:63-100 | keys a removed node did not own keep their owners; others gain at most the next node |
| `Ring.HashRing.AddNode` | crates/bashfuldb-cluster/src/ring.rs:54-60 | the node takes all its positions |
| `Ring.HashRing.RemoveNode` | crates/bashfuldb-cluster/src/ring.rs:63-65 | exactly its positions go |
| `Ring.HashRing.OwnersForKey` | crates/bashfuldb-cluster/src/ring.rs:71-100 | the wrapped walk gives the first n nodes of the clockwise order |
| `Membership.MergeForward` | crates/bashfuldb-cluster/src/membership.rs:156-216 | a merge forgets no member and takes no stamp back |
| `Membership.MergeEach` | crates/bashfuldb-cluster/src/membership.rs:156-216 | with one digest per id each decides alone about its id |
| `Membership.EnteredFrom` | crates/bashfuldb-cluster/src/node_state.rs:40-56 | from which states each state can be entered |
| `Membership.HealthyOnlyAfter` | crates/bashfuldb-cluster/src/node_state.rs:40-61 | a node that was neither healthy nor suspect becomes healthy only after bootstrapping or rebuilding |
| `Membership.MergeAddress` | crates/bashfuldb-cluster/src/membership.rs:175-207 | merging keeps the address of every known member and gives members it hears of first the unknown one |
| `Membership.MergeTwice` | crates/bashfuldb-cluster/src/membership.rs:156-216 | merging the same digests, one per id, again is refused throughout and changes nothing |
| `Membership.MergeTwiceNeedsDistinctIds` | crates/bashfuldb-cluster/src/membership.rs:156-216 | two digests for one id that a second merge treats differently |
| `Membership.LocalForward` | crates/bashfuldb-cluster/src/membership.rs:122-153 | a local transition moves the stamp forward exactly when the generation is not at its maximum or the clock value does not go back |
| `Membership.RingUnique` | crates/bashfuldb-cluster/src/membership.rs:241-249 | a set of nodes has one collision-free ring |
| `Membership.BuildIsRing` | crates/bashfuldb-cluster/src/membership.rs:241-249 | without collisions, adding nodes one by one gives that ring |
| `Membership.BuildAnyOrder` | crates/bashfuldb-cluster/src/membership.rs:241-249 | in any order |
| `Membership.CachedIsBuilt` | crates/bashfuldb-cluster/src/membership.rs:230-249 | without collisions the cached ring is the one built from any listing of the healthy members |
| `Membership.CachedRingHolds` | crates/bashfuldb-cluster/src/membership.rs:241-249 | without collisions a position of the cached ring belongs to a node exactly when the table has it as healthy and it is one of its 256 positions |
| `Membership.RingsAgree` | crates/bashfuldb-cluster/src/membership.rs:230-263 | without collisions hosts that agree on who is healthy agree on the owners of every key |
| `Membership.ClusterMembership.constructor` | crates/bashfuldb-cluster/src/membership.rs:33-54 | starts with the local node and a ring in step with it |
| `Membership.ClusterMembership.RebuildRing` | crates/bashfuldb-cluster/src/membership.rs:241-249 | the ring is that of the healthy members |
| `Membership.ClusterMembership.EmitRebalanceIfNeeded` | crates/bashfuldb-cluster/src/membership.rs:230-239 | rebuilding only when a node enters or leaves the healthy set keeps the ring in step |
| `Membership.ClusterMembership.UpsertLocalMember` | crates/bashfuldb-cluster/src/membership.rs:80-119 | inserts or moves along an edge, or refuses and changes nothing; the ring stays in step |
| `Membership.ClusterMembership.TransitionState` | crates/bashfuldb-cluster/src/membership.rs:122-153 | moves along an edge with the next generation, or refuses and changes nothing; the ring stays in step |
| `Membership.ClusterMembership.MergeDigest` | crates/bashfuldb-cluster/src/membership.rs:156-216 | one digest is taken exactly when its stamp is newer and its state can be reached |
| `Membership.ClusterMembership.MergeRemoteDigests` | crates/bashfuldb-cluster/src/membership.rs:156-216 | the flag says exactly whether the table changed; the table only moves forward; the ring stays in step |
| `Membership.AcceptedChanges` | crates/bashfuldb-cluster/src/membership.rs:156-216 | a taken digest leaves a table different from every earlier one |
| `Gossip.StartingInv` | crates/bashfuldb-cluster/src/membership.rs:33-54 | fresh nodes hold only what they issued |
| `Gossip.RunKeepsInv` | crates/bashfuldb-cluster/src/gossip.rs:106-228 | over every run with loss, duplication and reordering whatever is held or in flight was issued by a local step |
| `Gossip.ActMoves` | crates/bashfuldb-cluster/src/gossip.rs:106-228 | each action forgets no member and moves every observed state along one edge at most; it takes no stamp back exactly when a local change of a known record finds its generation below the maximum or brings a clock value that does not go back |
| `Gossip.RunForward` | crates/bashfuldb-cluster/src/membership.rs:80-216 | between any moment of a run and its end no member is forgotten, and no stamp goes back if every action meets that condition |
| `Gossip.RunMoves` | crates/bashfuldb-cluster/src/membership.rs:80-216 | over every run members are never forgotten, each action moves each state along one edge at most, and takes no stamp back exactly under that condition |
| `Gossip.RunRisesExactly` | crates/bashfuldb-cluster/src/membership.rs:80-216 | no action of a run takes a stamp back exactly when all meet that condition, and then none goes back between any two moments |
| `Gossip.RunAddresses` | crates/bashfuldb-cluster/src/membership.rs:80-216 | over every run the address of a member is the one its host was last told by an upsert, or had at the start, and the unknown one if it only heard of the member |
| `Gossip.PresentIsIssued` | crates/bashfuldb-cluster/src/membership.rs:67-77 | whatever is held or in flight was issued |
| `Gossip.EqualStampsAgree` | crates/bashfuldb-cluster/src/membership.rs:80-216 | if stamps are issued once, equal stamps mean equal states everywhere after every run |
| `Gossip.EqualStampsNeverReconcile` | crates/bashfuldb-cluster/src/membership.rs:156-216 | otherwise two hosts with one stamp refuse each other's state |
| `Gossip.ListDigests` | crates/bashfuldb-cluster/src/membership.rs:67-77 | lists every member once |
| `Gossip.GossipEngine.StampedMessage` | crates/bashfuldb-cluster/src/gossip.rs:164-190 | what is sent lists the whole table under a clock value above every earlier one, and is sent exactly when the clock gives one |
| `Gossip.GossipEngine.GossipTick` | crates/bashfuldb-cluster/src/gossip.rs:106-144 | without a peer nothing happens and the clock stays; otherwise one peer, another node that the table lists, gets the whole table under a new clock value |
| `Gossip.GossipEngine.HandleIncoming` | crates/bashfuldb-cluster/src/gossip.rs:146-190 | a message is merged only if its clock value was; it is answered exactly when the clock also gives a value for the reply, which lists the merged table and is stamped above the message |
| `Gossip.GossipEngine.Judge` | crates/bashfuldb-cluster/src/gossip.rs:192-228 | one member is judged at the next clock value, with the next generation, or the clock gives out and nothing changes |
| `Gossip.GossipEngine.EvaluateFailureDetector` | crates/bashfuldb-cluster/src/gossip.rs:192-228 | every member keeps its record or moves along an edge to its verdict with the next generation and a new clock value; no healthy node goes down in one pass; below the largest generation no stamp goes back |
| `Gossip.JudgedIsAction` | crates/bashfuldb-cluster/src/gossip.rs:208-225 | judging a member is a local transition of its host in the runs above |
| `Gossip.RenewedForward` | crates/bashfuldb-cluster/src/gossip.rs:192-228 | a detector pass takes no stamp back below the largest generation |
| `Exchange.ExchangeAgreesExactly` | crates/bashfuldb-cluster/src/gossip.rs:146-190 | after a message and its reply two hosts say the same about a member exactly when they did before or one takes over the other's record: newer and at most one edge away, or unknown and joining or healthy |
| `Exchange.ExchangeSettles` | crates/bashfuldb-cluster/src/gossip.rs:146-190 | a second exchange between them changes nothing |
| `Exchange.ExchangeAgrees` | crates/bashfuldb-cluster/src/gossip.rs:146-190 | if every member's records are reconcilable, one exchange makes the tables agree and, without collisions, the owners of every key |
| `Exchange.MergedListing` | crates/bashfuldb-cluster/src/membership.rs:156-216 | merging another table's listing takes over exactly the records that are newer and reachable, or unknown and joining or healthy |
| `Traffic.TrafficExactly` | crates/bashfuldb-cluster/src/gossip.rs:106-190 | in runs without loss, duplication and clock failure, in which each delivery is answered at once, the messages in flight are those at the start and one more for each round of gossip |
| `Learning.RunPresent` | crates/bashfuldb-cluster/src/gossip.rs:106-190 | sending, delivering and answering puts no record about that was not held or in flight before |
| `Learning.LearnsOnly` | crates/bashfuldb-cluster/src/membership.rs:156-216 | in whatever run, and whoever lists whom, a host comes to say a record of a member only if a chain of records held or in flight leads there from what it says, each newer and at most one edge from the one before, or the first unknown and joining or healthy |
| `Learning.LearnsWhenOffered` | crates/bashfuldb-cluster/src/gossip.rs:106-190 | if the records of such a chain are held by hosts that list the learner or that it lists, or are in flight to it, a run makes it say the last one; in that run each host sends only to nodes it lists or answers, nothing is lost or duplicated and every message is answered |
| `Learning.LearnsExactly` | crates/bashfuldb-cluster/src/gossip.rs:106-190 | so where all records about the member are held by the learner or offered to it in this way, some run makes it say a given record exactly when a chain leads there, and then a run without loss and duplication does |
| `Learning.ListedInReach` | crates/bashfuldb-cluster/src/gossip.rs:106-121 | this is the case when every host lists the learner and nothing is in flight |
| `Learning.AllLearnExactly` | crates/bashfuldb-cluster/src/gossip.rs:106-190 | where all hosts list each other, some run makes all of them say it exactly when a chain leads there from each of them |
| `Quiescence.RestStays` | crates/bashfuldb-cluster/src/gossip.rs:106-190 | once no host takes over a record in flight to it, or held by a host it can exchange messages with, this stays so and no table changes in any run |
| `Quiescence.RestExactly` | crates/bashfuldb-cluster/src/gossip.rs:106-190 | no run of gossip changes any table exactly then; otherwise a run without loss and duplication changes one |
| `Convergence.ChangesBounded` | crates/bashfuldb-cluster/src/membership.rs:156-216 | a run of gossip changes tables at most as often as there are, over all hosts, records about that are newer than what the host says |
| `Convergence.Settles` | crates/bashfuldb-cluster/src/gossip.rs:106-190 | from every cluster a run without loss and duplication leads to rest |
| `Convergence.RestAgreesExactly` | crates/bashfuldb-cluster/src/membership.rs:156-216 | at rest two hosts of which one lists the other say the same about a member exactly when one would take over the record of the other or they are equal |
| `Convergence.RestIsAgreement` | crates/bashfuldb-cluster/src/membership.rs:156-216 | where all hosts list each other, of any two records of a member one is taken over after the other, and hosts that do not know a member would take it over, every run that has come to rest leaves all hosts agreeing about every member on a record not older than any that was held |
| `Convergence.Converges` | crates/bashfuldb-cluster/src/gossip.rs:106-190 | and there is such a run, without loss and duplication |
| `Joint.JointExample` | crates/bashfuldb-cluster/src/membership.rs:156-216 | a run from fresh hosts that end up listing each other, after which a host can learn the last record of either of two members but in no run of both |
| `Stuck.TakesNoneStays` | crates/bashfuldb-cluster/src/membership.rs:162-173 | a host that takes over nothing about a member that is held or in flight keeps what it says in every run |
| `Stuck.StuckExactly` | crates/bashfuldb-cluster/src/membership.rs:162-173 | where all records about a member are held by a host or offered to it, no run changes what it says exactly when it takes over none of them |
| `Stuck.StuckForever` | crates/bashfuldb-cluster/src/membership.rs:169-173 | so when only two records of a member are about, the later not one edge from the earlier, every host that has one of them keeps it |
| `Stuck.CutOffForever` | crates/bashfuldb-cluster/src/gossip.rs:106-121 | a host that lists no other, is listed by none and has no message to, from or about it under way never changes |
| `Stuck.ChainNotEnough` | crates/bashfuldb-cluster/src/gossip.rs:106-121 | so between fresh hosts a chain leads to the record of a healthy host that no run ever brings |
| `Stuck.MissedStateExample` | crates/bashfuldb-cluster/src/membership.rs:169-173 | a run from fresh hosts, without loss and duplication, after which all hosts list each other and one that missed a node's bootstrapping, whatever is sent, delivered and answered, never learns that it is healthy |
| `CodecLaws.EncodeThenDecode` | crates/bashfuldb-document/src/codec.rs:51-82 | decoding inverts encoding in front of any bytes; the length is 4 plus the size; trailing bytes are reported exactly |
| `CodecLaws.EncodeSucceedsExactly` | crates/bashfuldb-document/src/codec.rs:89-165 | encoding succeeds exactly within the depth, count, key and float limits |
| `CodecLaws.LimitsInNumbers` | crates/bashfuldb-document/src/codec.rs:89-165 | 64 levels of arrays and objects, 16 MiB of text or bytes, a million elements and keys of 256 bytes encode, and one more of each does not |
| `CodecLaws.PrefixIsShort` | crates/bashfuldb-document/src/codec.rs:274-303 | every proper beginning of an encoding is reported as cut short, at a place within it |
| `CodecLaws.StartsWithType` | crates/bashfuldb-document/src/codec.rs:22-57 | every encoding starts with the magic bytes, the version and the type of the value |
| `CodecLaws.I64Layout` | crates/bashfuldb-document/src/codec.rs:102-102 | integers take eight bytes, most significant first, in two's complement |
| `CodecLaws.SmallBuffers` | crates/bashfuldb-document/src/codec.rs:59-78 | which error a wrong start, version or type gives, and that every byte but zero is true |
| `CodecLaws.DecodeAccepts` | crates/bashfuldb-document/src/codec.rs:59-78 | accepted values nest at most 64 levels; their size is short of the input exactly when an object repeats a key; re-encoding fails only on keys and floats |
| `CodecLaws.DecEnc` | crates/bashfuldb-document/src/codec.rs:167-255 | wherever an encoding stands, decoding there gives the value back and stops at its end |
| `CodecLaws.DecFacts` | crates/bashfuldb-document/src/codec.rs:167-255 | a decoded value keeps the depth and count limits and is as large as what was consumed |
| `CodecLaws.EncSize` | crates/bashfuldb-document/src/codec.rs:257-272 | the recomputed size is the encoded length |
| `Value.CollapseFacts` | crates/bashfuldb-document/src/codec.rs:240-250 | objects as decoded are ordered by key; their size is kept exactly when no key repeats |
| `Value.LastEntryCounts` | crates/bashfuldb-document/src/codec.rs:240-250 | where a written object repeats a key the last entry counts |
| `Value.FiniteMeans` | crates/bashfuldb-document/src/codec.rs:103-106 | what is refused are exactly the infinities and what is not a number |
| `Value.InsertSize` | crates/bashfuldb-document/src/codec.rs:249-249 | a repeated key is paid for once |
| `BinaryCodec.EncodeValue` | crates/bashfuldb-document/src/codec.rs:89-165 | appends the encoding to the buffer, or reports the first limit broken |
| `BinaryCodec.EncodeDocument` | crates/bashfuldb-document/src/codec.rs:51-57 | the written buffer has the stated length and decodes back |
| `BinaryCodec.ReadBytes` | crates/bashfuldb-document/src/codec.rs:283-300 | the offset moves exactly on success |
| `BinaryCodec.DecodeValue` | crates/bashfuldb-document/src/codec.rs:167-255 | the recursive reader agrees with the specification and always terminates |
| `BinaryCodec.DecodeFields` | crates/bashfuldb-document/src/codec.rs:240-250 | the loop over fields gives the collapsed object |
| `BinaryCodec.DecodeDocument` | crates/bashfuldb-document/src/codec.rs:59-78 | what is accepted nests at most 64 levels and is no larger than its input |
| `RespLaws.StreamRoundTrip` | crates/bashfuldb-protocol/src/parser.rs:112-215 | any list of responses is read back as exactly its frames, in order and with nothing left, exactly when each fits |
| `RespLaws.ParseSer` | crates/bashfuldb-protocol/src/parser.rs:112-215 | one response followed by anything is read back exactly when it fits |
| `RespLaws.ReadWritten` | crates/bashfuldb-protocol/src/parser.rs:222-291 | a line that fits is read whole |
| `RespLaws.ReadTooLong` | crates/bashfuldb-protocol/src/parser.rs:222-291 | a line that is too long is refused |
| `RespLaws.ReadCut` | crates/bashfuldb-protocol/src/parser.rs:222-291 | a line feed in the payload cuts the line short |
| `RespLaws.ReadAnyLine` | crates/bashfuldb-protocol/src/parser.rs:222-291 | any line is the text before its line feed, without a carriage return at its end, if it is not too long and UTF-8 |
| `RespLaws.NegativeCounts` | crates/bashfuldb-protocol/src/parser.rs:162-198 | a negative count is a null bulk string or null array |
| `RespLaws.BulkEnds` | crates/bashfuldb-protocol/src/parser.rs:162-190 | what becomes of a bulk string of any bytes, by its length and what follows it |
| `RespLaws.BadHeaders` | crates/bashfuldb-protocol/src/parser.rs:134-213 | which error an empty line, an unknown type and a bad number give |
| `RespLaws.WireTypes` | crates/bashfuldb-protocol/src/serializer.rs:28-75 | the first byte of each kind of response, and the whole text of simple ones |
| `RespLaws.EightLevels` | crates/bashfuldb-protocol/src/parser.rs:124-126 | eight levels of arrays are read back and nine are not |
| `RespIo.Reader.ReadLineLimited` | crates/bashfuldb-protocol/src/parser.rs:222-291 | for every split of the stream the same line and position, or the same kind of error, as unsplit |
| `RespIo.Reader.ReadExact` | crates/bashfuldb-protocol/src/parser.rs:173-183 | the next n bytes across pieces, or nothing |
| `RespIo.Reader.ParseFrameInner` | crates/bashfuldb-protocol/src/parser.rs:112-215 | for every split of the stream the same frame and rest, or the same kind of error, as unsplit |
| `RespIo.Reader.ParseElements` | crates/bashfuldb-protocol/src/parser.rs:203-208 | the loop over elements gives the frames of the array |
| `RespIo.Reader.ReadFrames` | crates/bashfuldb-protocol/src/parser.rs:62-71 | frame after frame, for every split of the stream, what the unsplit stream gives |
| `RespIo.Reader.ReadBack` | crates/bashfuldb-protocol/src/parser.rs:62-71 | whatever pieces a batch of responses arrives in, it is read back as exactly its frames, with nothing left, exactly when each fits |
| `RespIo.WriteToBuf` | crates/bashfuldb-protocol/src/serializer.rs:28-75 | appends the response and changes nothing already written |
| `RespIo.SerializeAll` | crates/bashfuldb-protocol/src/serializer.rs:16-26 | a batch in one buffer is read back as its frames exactly when each response fits |
| `RespStream.FrameSettles` | crates/bashfuldb-protocol/src/parser.rs:112-215 | whatever bytes follow, a frame that was read stays that frame, and an error other than the end of the input stays that error |
| `RespStream.PanicsExactly` | crates/bashfuldb-protocol/src/parser.rs:134-141 | reading a frame panics exactly when some path of element numbers, within the nesting limit, each announced by its array's header and with only readable frames before it, leads to a header line that starts with a character of several bytes |
| `RespStream.PanicExample` | crates/bashfuldb-protocol/src/parser.rs:140-141 | a two-byte line that makes the parser panic |
| `RespStream.AsciiNeverPanics` | crates/bashfuldb-protocol/src/parser.rs:112-215 | ASCII input never does |
| `Text.I64RoundTrip` | crates/bashfuldb-protocol/src/parser.rs:155-160 | every i64 survives printing and parsing |
| `Text.DigitAt` | crates/bashfuldb-protocol/src/serializer.rs:42-46 | printed numbers are in base ten, without leading zeros |
| `Text.ParsePrinted` | crates/bashfuldb-protocol/src/parser.rs:155-160 | reading a printed number fails exactly outside the signed 64-bit range; a plus sign and leading zeros are allowed |
| `SchemaLog.ReplayIndexes` | crates/bashfuldb-schema/src/lib.rs:615-662 | replaying any log leaves in each collection exactly the indexes created and not dropped later, in order |
| `SchemaLog.ListedExactly` | crates/bashfuldb-schema/src/lib.rs:610-663 | a collection lists one definition for each entry of the log that creates an index in it which no later entry drops, in the order of these entries, with the collection's name and the entry's index id, field and version |
| `SchemaLog.VersionsAreLast` | crates/bashfuldb-schema/src/lib.rs:632-662 | the version of a collection is that of the last entry naming it, and it is unknown without one; the version of the schema is that of the last entry |
| `SchemaLog.ReplayActive` | crates/bashfuldb-schema/src/lib.rs:615-662 | a field's active index is the one created last on it unless dropped under that field since; without any there is none |
| `SchemaLog.ActiveIsLatestLive` | crates/bashfuldb-schema/src/lib.rs:615-662 | when drops name their index's field, it is the one created last if that is live, else none |
| `SchemaLog.ActiveIsListed` | crates/bashfuldb-schema/src/lib.rs:615-662 | the active index is among the collection's indexes and on that field |
| `SchemaLog.OverlapIsReplay` | crates/bashfuldb-schema/src/lib.rs:287-300 | applying an overlapping stretch of the log equals one full replay to the later end |
| `SchemaLog.RoundsAreReplay` | crates/bashfuldb-schema/src/lib.rs:287-300 | so does any number of overlapping stretches |
| `SchemaLog.CatchUpIsReplay` | crates/bashfuldb-schema/src/lib.rs:469-476 | asking for the entries after one's version and applying them gives the whole log's state |
| `SchemaLog.DefaultSchemaManager.ApplyEntry` | crates/bashfuldb-schema/src/lib.rs:615-662 | the in-place update is the replay step |
| `SchemaLog.DefaultSchemaManager.ApplyEntries` | crates/bashfuldb-schema/src/lib.rs:287-300 | known entries are skipped; the batch fails exactly when an entry that would advance the version has a bad name; an up-to-date published version is left behind exactly when the batch stops midway |
| `SchemaLog.AppliedExactly` | crates/bashfuldb-schema/src/lib.rs:287-300 | a batch in any order is applied without an error exactly when every entry that would advance the version has valid names |
| `SchemaLog.FailsOnBadNames` | crates/bashfuldb-schema/src/lib.rs:287-300 | that is, unless such an entry has an empty name or a slash or NUL byte in one |
| `SchemaLog.MidwayExactly` | crates/bashfuldb-schema/src/lib.rs:287-300 | the state moves on while an error is reported exactly when the first new entry has valid names and a later advancing one has not |
| `SchemaLog.StopsMidwayExample` | crates/bashfuldb-schema/src/lib.rs:287-300 | a good entry and a badly named one: the first is applied, the second is not |
| `SchemaLog.DefaultSchemaManager.ConvergeFromGossip` | crates/bashfuldb-schema/src/lib.rs:418-447 | also from a state ahead of the published version, and whatever a provider that has the log sends or fails to send, the state stays that of a prefix and never falls back; full answers bring state and published version to the whole log, even when a snapshot cannot be saved and the call reports an error |
| `Materializer.DefaultIndexMaterializer.Materialize` | crates/bashfuldb-schema/src/lib.rs:710-743 | adds exactly one row for each scanned object that has one, wherever the 1024-row batches fall, and changes nothing else; a fresh index over UTF-8 keys answers lookups by value |
| `Materializer.RowsAreProper` | crates/bashfuldb-schema/src/lib.rs:710-743 | in a store with UTF-8 keys these are exactly the rows of the collection's indexable objects |
| `Materializer.LookupsFindObjects` | crates/bashfuldb-schema/src/lib.rs:709-746 | after building a fresh index over UTF-8 keys, the rows that start with the id, a slash, the base64 text of a value and a slash are exactly those of the objects with that value, go on with the object's id and hold nothing else |
| `Materializer.RowsReadBack` | crates/bashfuldb-schema/src/lib.rs:723-728 | every row splits at its first two slashes into the index id, the text of a value and the id of an object that has the value |
| `Materializer.RowsCoincideExactly` | crates/bashfuldb-schema/src/lib.rs:766-771 | two objects share a row exactly when they have the same indexed text and, read as text, the same id |
| `Materializer.LossyKeysCollide` | crates/bashfuldb-schema/src/lib.rs:766-771 | two keys that are not UTF-8 and share a row |
| `Materializer.DefaultIndexMaterializer.DropMaterialized` | crates/bashfuldb-schema/src/lib.rs:745-759 | deletes exactly the index's range |
| `Materializer.OneRowPerObject` | crates/bashfuldb-schema/src/lib.rs:720-731 | different objects have different rows |
| `Materializer.RowCount` | crates/bashfuldb-schema/src/lib.rs:720-731 | there are as many rows as indexable objects |
| `Materializer.OthersUntouched` | crates/bashfuldb-schema/src/lib.rs:710-759 | building or dropping an index touches no row of another |
| `Materializer.DropUndoesMaterialize` | crates/bashfuldb-schema/src/lib.rs:710-759 | dropping a freshly built index restores the indexes family exactly |
| `Materializer.ScanIsCollection` | crates/bashfuldb-schema/src/lib.rs:786-790 | for UTF-8 keys the scanned range is exactly the collection |
| `Materializer.IndexKeyInjective` | crates/bashfuldb-schema/src/lib.rs:726-727 | index keys name value and object unambiguously |
| `Base64.EncodeRoundTrip` | crates/bashfuldb-schema/src/lib.rs:792-794 | encoded values read back and contain no slash |
| `Base64.SymbolsOfTable` | crates/bashfuldb-schema/src/lib.rs:792-794 | the alphabet is that of table 2 of RFC 4648 |
| `Base64.SameNumber` | crates/bashfuldb-schema/src/lib.rs:792-794 | three bytes and the four symbols that stand for them are the same number |
| `Storage.MemEngine.Scan` | crates/bashfuldb-storage/src/storage/mem.rs:71-87 | exactly the rows between the bounds, each once and in order of keys; an unknown family is refused, and a start after the end panics |
| `Storage.MemEngine.WriteBatch` | crates/bashfuldb-storage/src/storage/mem.rs:89-120 | all operations of a batch take effect in order, or, if any family is unknown, none does |
| `Storage.LastOpCounts` | crates/bashfuldb-storage/src/storage/mem.rs:89-120 | the last operation of a batch on a row decides what becomes of it |
| `Storage.OthersStay` | crates/bashfuldb-storage/src/storage/mem.rs:89-120 | rows that no operation of a batch names stay |
| `Storage.RangeBounds` | crates/bashfuldb-storage/src/storage/mem.rs:194-206 | an empty bound is no bound, the start is included and the end excluded |
| `Storage.MemEngine.PutRow` | crates/bashfuldb-storage/src/storage/mem.rs:33-45 | sets one row of a known family |
| `Storage.MemEngine.DeleteRow` | crates/bashfuldb-storage/src/storage/mem.rs:57-69 | removes one row of a known family |
| `Bytes.PrefixRange` | crates/bashfuldb-schema/src/lib.rs:786-790 | the range from a prefix to the prefix followed by 0xFF is its extensions that do not go on with 0xFF |
| `Bytes.Utf8Exactly` | crates/bashfuldb-protocol/src/parser.rs:288-290 | text is valid exactly when it is the encoding of a sequence of Unicode scalar values |
| `Bytes.BadLenExactly` | crates/bashfuldb-schema/src/lib.rs:767-767 | lossy reading replaces the longest beginning of a character, or one byte |

## Left out

- HTTP API, authentication, TLS, the TCP server, metrics and on-disk snapshots: plumbing and library calls.
- RocksDB engine: a wrapper over a foreign library; the in-memory engine is the storage model. The replicas' column families are maps of records, so the JSON form of stored records and of hints is not modelled, except that a hint may be unreadable.
- Overlapping operations on one key: runs order the operations; requests that are stored late are covered as background writes.
- Phi accrual failure detector: floating-point statistics; its suspicions are an arbitrary input.
- Anti-entropy: it performs no repair.
- Membership events and the address book: no effect on the table.
- Clock values and schema versions in runs of gossip: a message whose clock value cannot be merged counts as lost, and an answer for which the clock has no value as not given.
- A vnode hash with known values: placement on the ring is an arbitrary function, and agreement of the cached ring with the healthy members assumes that it has no collisions among them.
- `frame_array_to_command` and command execution: short and pure.
- UUID notation other than the hyphenated one, which is what the code writes.
- Creating and dropping an index through the API, quotas, background swaps and concurrent schema changes: schema results are about the log. Reading and sorting the log file is not modelled; logs are sequences in version order.
- ManualClock and lock poisoning.
- JSON: which fields of a stored document are indexable is an arbitrary function of its bytes.
