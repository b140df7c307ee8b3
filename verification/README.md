# Verified model of the chrono clocks

A Dafny model of the logical, hybrid and bounded-uncertainty clocks of chrono, of the ordering algorithms built on
their stamps, and of the vector codec. `dafny verify dfyconfig.toml` checks the whole project.

## What is modelled

- **Clocks.** `VectorClock`, `LamportClock` and `HybridClock` hold the per-process clocks as classes whose methods follow
  the Go methods loop by loop, with `uint64`, `uint32` and `int64` wrap-around written out. Each wall reading is a
  parameter, so it may step backward at will.
- **Runs.** `Causality` defines happens-before from program order and send-to-receive edges alone. `ClockRun` is a state
  machine of any number of processes, each owning the three clocks: an event is attempted at any process at any moment,
  a receive may name any earlier send (so messages may be delayed, overtaken, duplicated or lost), and a receive beyond
  the process's drift limit leaves no trace. `VectorTheorem`, `LamportTheorem` and `HybridTheorem` characterise the
  stamps of all such runs; each gives the exact condition on the run, in both directions, under which its counters keep
  their promise, and `RunLimits` has runs at the limit.
- **Ordering.** `PartialOrder` has Kahn's algorithm over its arrays and the two frontier functions, for an arbitrary
  HappensBefore; `SortTheorem` and `FrontierTheorem` say what they compute, `StampAdapters` instantiates them with the
  three stamps, and `CausalSort` combines them with the run theorems.
- **Stores.** `SiblingStore` proves the incremental sibling store equal to a from-scratch frontier; `DottedVersion` has
  dotted versions and last-write-wins, `DottedHistory` the histories that dotted versions stand for.
- **Codec.** `BigEndian`, `VectorCodec`, `CodecLayout` and `CodecTheorem` cover the binary form: its bytes, which inputs are
  accepted, and the round trips.
- **TrueTime.** `TrueTime` has commit-wait and how long it takes, `TransactionRun` external consistency over runs of
  interleaved transactions, `NtpSource` the integer arithmetic of an NTP exchange (offset and delay as in section 5 of
  RFC 4330) over wall and monotonic readings, `NtpCommitWait` commit-wait on such a source, and `NtpTransactions` what
  external consistency becomes there.

`Words`, `Finite` and `Counters` are shared vocabulary: machine words and byte-string order, finite counting, and the
sparse counter maps of which snapshots and versions are made.

## Where the code and its documentation differ

The model follows the code.

- `truetime/clock.go:31-32` and `truetime/interval.go:35` equate `After` with `Definitely`. `After` is strict and
  `Definitely` is not; commit-wait rests on the strict one (`TransactionRun.LaterPicksAreLargerIff`,
  `TransactionRun.DefinitelyIsTooWeak`).
- `truetime/commit_wait.go:11-13` promises every later observer of the clock an `Earliest` past the commit timestamp.
  That holds exactly when the clock's `Earliest` never goes back (`TransactionRun.StaysPastIff`). A new query of an NTP
  source can take it back, by more dispersion or a lower offset (`NtpSource.RequeryKeepsEarliestIff`,
  `NtpTransactions.RequeryBreaksPromise`). What observers get from any honest source is a strictly later `Latest`
  (`TransactionRun.ExternalConsistency`).
- `truetime/doc.go:5-14` promises external consistency over any source. NTP sources give it exactly while no exchange has
  an odd delay, which can leave an interval a nanosecond short, and no wall clock is stepped back within a transaction
  (`NtpTransactions.StrictIff`). Their intervals carry monotonic readings, by which Go compares them, so that a step
  which a new query corrects ends commit-wait early; odd delays alone cost at most two nanoseconds
  (`NtpTransactions.ConsistentIff`).
- `truetime/ntp_source.go:160-168` reckons every wire timestamp from 1900. Section 3 of RFC 4330 reckons those with the
  top bit clear from 7 February 2036 (`NtpSource.EraIgnoredIff`).
- `ordering/partial_order.go:60-61` blames the stuck branch on an intransitive HappensBefore. It is reached exactly on a
  cycle (`SortTheorem.SortCompleteIff`); an intransitive but acyclic relation is sorted completely.
- `vector/clock.go:127-128` speaks of identical vectors. With a stored zero, which `NewFromMap` and decoding can
  introduce, the code answers otherwise (`VectorClock.StoredZerosBreakEquality`, `VectorClock.EqualImpliesEqualIff`).
- `dotted/version.go:87-88` says that `Increment` never stores a zero. It does at the 2^64-th increment, and nothing else
  does (`DottedVersion.ZeroFreeDepthIff`); comparison and merge then no longer mean what their comments say
  (`DottedVersion.FourWayIff`, `DottedVersion.OverExactIff`, `DottedVersion.MergeCommutesIff`).
- `dotted/version.go:45-49` says that `Descends` compares histories. It does exactly while each actor increments only
  versions that contain all it has written (`DottedHistory.TellingIff`); two increments by one actor of the same version
  are equal (`DottedHistory.LostWrite`).
- `dotted/resolve.go:26-27` picks the highest sum of counters. A sum of 2^64 reads as zero, so another sibling can dominate
  the winner although no counter has wrapped (`DottedVersion.WinnerUndominatedIff`).

## Model

| member | source | states |
|---|---|---|
| VectorClock.Clock.constructor | vector/clock.go:21-26 | a fresh clock knows no events |
| VectorClock.Clock.FromMap | vector/clock.go:30-37 | a restored clock starts from exactly the given counters, stored zeros included |
| VectorClock.Clock.Tick | vector/clock.go:46-51 | the process's own counter, and nothing else, goes up by one (wrapping), and the snapshot is the new vector |
| VectorClock.Clock.Send | vector/clock.go:57-62 | as Tick |
| VectorClock.Clock.Receive | vector/clock.go:69-79 | the loop computes the pointwise maximum with the remote vector, then counts the receive itself; a remote zero is never stored |
| VectorClock.ReceivedSpelledOut | vector/clock.go:69-79 | entry by entry: the larger of the two readings, one more (modulo 2^64) for the receiver; a remote zero is not stored |
| VectorClock.Clock.SnapshotLocked | vector/clock.go:90-99 | the copy has exactly the clock's entries |
| VectorClock.Compare | vector/compare.go:41-77 | the two loops decide the pointwise order of the vectors read as total functions: Before, After, Equal or Concurrent |
| VectorClock.RelateSpelledOut | vector/compare.go:41-77 | the answer from the entries: Concurrent, Before, After or Equal as each vector does or does not read more somewhere, a missing entry reading zero |
| VectorClock.CompareIsAPartialOrder | vector/compare.go:67-76 | Before is transitive, swapping the arguments mirrors the answer, and Equal versions answer alike everywhere |
| VectorClock.SnapshotEqual | vector/clock.go:129-139 | the early-return loop decides equal entry counts and equal readings |
| VectorClock.EqualityAgreesWithoutZeros | vector/clock.go:129-139 | without stored zeros Snapshot.Equal, Compare's Equal and equality of the maps coincide |
| VectorClock.EqualImpliesEqualIff | vector/clock.go:125-139 | against every other vector, Snapshot.Equal implies Compare's Equal: exactly when the first stores no zero |
| VectorClock.EqualIsEqualSizeIff | vector/clock.go:125-139 | vectors that Compare calls Equal are also Snapshot.Equal exactly when they store equally many entries |
| VectorClock.StoredZerosBreakEquality | vector/compare.go:57-65 | with a stored zero Equal and Compare disagree in both directions and Equal is not symmetric: concrete vectors |
| LamportClock.Clock.constructor | lamport/clock.go:14-16 | a fresh clock starts at zero |
| LamportClock.Clock.At | lamport/clock.go:21-23 | a restored clock resumes from the given counter |
| LamportClock.Clock.Tick | lamport/clock.go:28-33 | the counter goes up by one and is returned |
| LamportClock.Clock.Send | lamport/clock.go:38-43 | as Tick |
| LamportClock.Clock.Receive | lamport/clock.go:48-53 | the counter becomes one more than the larger of local and remote, wrapping |
| LamportClock.ReceiveIncreasesIff | lamport/clock.go:45-53 | a receive is later than both counters exactly unless one of them is the last uint64 |
| HybridClock.Clock.constructor | hlc/clock.go:67-78 | a fresh clock stands at (0, 0) with the given drift limit |
| HybridClock.Clock.Now | hlc/clock.go:143-156 | the local-event rule, for any wall reading |
| HybridClock.Clock.Send | hlc/clock.go:89-91 | the same step as Now |
| HybridClock.Clock.Receive | hlc/clock.go:97-132 | beyond the drift limit the state is unchanged and nothing is returned; otherwise the four-case rule is the new state |
| HybridClock.Compare | hlc/clock.go:37-50 | Compare is -1, 0 or 1 exactly when Less, equality or the converse of Less holds |
| HybridClock.LessIsAStrictTotalOrder | hlc/clock.go:24-29 | Less is irreflexive, transitive and total on timestamps |
| HybridClock.ReceiveIsNowFromTheLater | hlc/clock.go:111-129 | the four receive cases together are the local rule applied to the later of the two stamps |
| HybridClock.AdvanceIncreasesIff | hlc/clock.go:143-156 | Now goes strictly forward, even across a backward wall step, exactly unless the uint32 wraps |
| HybridClock.ReceiveIncreasesIff | hlc/clock.go:111-129 | a receive is after both stamps exactly unless the later one's uint32 wraps |
| HybridClock.AdvanceIsLeastIff | hlc/clock.go:143-156 | Now gives the least timestamp after the last one and not before the reading, exactly unless the uint32 wraps |
| HybridClock.ReceiveIsLeastIff | hlc/clock.go:107-129 | Receive gives the least timestamp after both stamps and not before the reading, exactly unless the later one's uint32 wraps |
| HybridClock.DriftCheckExactIff | hlc/clock.go:103-105 | the check decides 'more than maxDrift ahead' exactly unless pt + maxDrift overflows past the remote time |
| HybridClock.DriftIsBounded | hlc/clock.go:71-78 | over any sequence of calls with arbitrary remote stamps, a clock with the check on is never more than maxDrift past its best own reading |
| HybridClock.NoCheckNoBound | hlc/doc.go:37-41 | without the check one message sets the clock to any wall time |
| Causality.PastDecomposes | lamport/doc.go:1-8 | happens-before into an event is the past of its process's previous event together with the past of the message it receives |
| Causality.HappensBeforeIsAStrictPartialOrder | lamport/doc.go:1-8 | happens-before is irreflexive and transitive |
| ClockRun.ReachableIsStamped | vector/clock.go:46-79 | in every execution, under any interleaving, delay, duplication, loss and drift rejection, each stamp is the clock rule applied to the process's last stamp and the message's stamp |
| ClockRun.StampedIsReachable | vector/clock.go:46-79 | every log obeying those rules is the log of an execution, so the theorems below speak of exactly the reachable runs |
| ClockRun.StepKeepsInvariant | hlc/clock.go:97-132 | one attempted event, accepted or rejected, keeps the logs and the per-process clock states in step |
| VectorTheorem.StampKnowsPast | vector/clock.go:46-79 | a stamp knows exactly the events of its causal past: of each process the first v[process] ones |
| VectorTheorem.LeqIsInPast | vector/compare.go:41-77 | one stamp is pointwise below another exactly when its event is in the other's causal past |
| VectorTheorem.VectorDecidesHappensBefore | vector/compare.go:41-77 | for distinct events Before, After and Concurrent are exactly happens-before, its converse, and neither; never Equal |
| VectorTheorem.VectorExactIff | vector/clock.go:46-79 | that promise holds throughout a run exactly when no process has 2^64 events |
| VectorTheorem.EveryShortRunIsDecided | vector/clock.go:46-79 | it holds in every execution of fewer than 2^64 attempted events |
| VectorTheorem.OwnEntryWraps | vector/clock.go:49-49 | at the 2^64-th event of a process its own entry is zero again |
| VectorTheorem.EntryCountsPast | vector/doc.go:9-10 | an entry is the number of events of that process in the causal past |
| VectorTheorem.EntriesSumToPast | vector/clock.go:46-79 | the entries of a stamp add up to the size of its causal past, and none is a stored zero |
| LamportTheorem.LamportIsChainHeight | lamport/clock.go:28-53 | a stamp is exactly the length of the longest causal chain ending at the event |
| LamportTheorem.ClockConditionIff | lamport/doc.go:4-5 | happens-before implies a smaller stamp throughout a run exactly when no causal chain has 2^64 events |
| LamportTheorem.EveryShortRunMeetsCondition | lamport/clock.go:28-53 | so it does in every execution of fewer than 2^64 attempted events |
| LamportTheorem.LamportAtMostVectorSum | lamport/clock.go:48-53 | the stamp is at most the sum of the entries of the same event's vector stamp |
| HybridTheorem.WallTimeIsBestReading | hlc/clock.go:107-109 | WallTime is the maximum of zero and all wall readings in the causal past, with no condition on the run |
| HybridTheorem.WallTimeNearTrueTime | hlc/doc.go:15-17 | if readings are within eps of true time so is every WallTime, despite backward steps |
| HybridTheorem.LogicalNeedsPlateau | hlc/clock.go:111-129 | Logical k ends a causal chain of at least k events sharing its WallTime, even if stamps have wrapped |
| HybridTheorem.LogicalIsPlateauHeight | hlc/clock.go:111-129 | while those chains fit, Logical is exactly the length of the longest one ending at the event, less one unless WallTime is zero |
| HybridTheorem.CausalIff | hlc/doc.go:16-16 | happens-before implies Less throughout a run exactly when no causal chain whose events share one best wall reading outgrows the uint32, a condition on the run's events and readings alone |
| HybridTheorem.EveryShortRunIsCausal | hlc/clock.go:149-154 | so it does in every execution of fewer than 2^32 attempted events, with no overflow assumption |
| RunLimits.IdleRunBreaksHybrid | hlc/clock.go:151-151 | 2^32 local events under a stopped wall clock break causality: a concrete run at the limit |
| RunLimits.LongRunBreaksCounters | vector/clock.go:49-49 | 2^64 events at one process break the Lamport and the vector promise: a concrete run at the limit |
| PartialOrder.TopologicalSort | ordering/partial_order.go:18-72 | the array loops emit, at each turn, the first position in stable ID order whose unemitted predecessors number zero |
| PartialOrder.BuildGraph | ordering/partial_order.go:32-45 | successor lists are exact and each in-degree is the number of predecessors |
| PartialOrder.Choose | ordering/partial_order.go:51-58 | the scan finds the first unused position of in-degree zero, or none exists |
| PartialOrder.Release | ordering/partial_order.go:66-68 | after the decrements every in-degree is again the number of unemitted predecessors |
| PartialOrder.ScanOrderSorted | ordering/partial_order.go:24-30 | the scan order is strictly sorted by ID, then by position |
| Words.LexLessIff | ordering/partial_order.go:28-30 | the order of IDs: a strict prefix first, otherwise the smaller byte where they first differ |
| SortTheorem.KahnIsGreedy | ordering/partial_order.go:50-69 | each emitted event is the tie-break least ready one, and the loop ends only when none is ready |
| SortTheorem.SortRespects | ordering/partial_order.go:50-69 | for any relation at all, no event comes before one of its predecessors |
| SortTheorem.SortCompleteIff | ordering/partial_order.go:59-63 | events are dropped exactly when HappensBefore has a cycle among them |
| SortTheorem.StuckHasCycle | ordering/partial_order.go:59-63 | a cycle can be found among the events left over |
| SortTheorem.StrictOrderNeverStuck | ordering/partial_order.go:59-63 | under a strict partial order the stuck branch is never taken |
| SortTheorem.SortIsLinearExtension | ordering/partial_order.go:13-17 | under a strict partial order the output is a permutation and a linear extension |
| SortTheorem.SortIsLeast | ordering/partial_order.go:16-17 | with distinct IDs the output has the lexicographically least IDs of all linear extensions |
| SortTheorem.SortIsLeastByBytes | ordering/partial_order.go:13-17 | the same with the comparison of IDs spelled out byte by byte |
| SortTheorem.SortSpelledOut | ordering/partial_order.go:50-58 | for any relation and any IDs: while some event has all its predecessors out, one is emitted next, of least ID, and of equal IDs the first in the input |
| SortTheorem.SortIgnoresInputOrder | ordering/partial_order.go:13-14 | with distinct IDs the output is the same for every order of the input, cycles or not |
| PartialOrder.MaximalElements | ordering/partial_order.go:78-96 | the loops return, in input order, exactly the events that happen before no other |
| PartialOrder.MinimalElements | ordering/partial_order.go:101-119 | the loops return, in input order, exactly the events before which no other happens |
| FrontierTheorem.FrontierCovers | ordering/partial_order.go:74-77 | the frontier is nonempty, its events are unrelated and in input order, and every event is on it or before one that is |
| FrontierTheorem.ConverseIsOrdered | ordering/partial_order.go:98-100 | the converse relation is a strict partial order exactly when the relation is, so the same holds of minimal elements |
| FrontierTheorem.MinimalCovers | ordering/partial_order.go:98-119 | every event is minimal or has a minimal one before it; minimal events are those before which none happens, in input order |
| StampAdapters.AdaptersAreStrictlyOrdered | ordering/happens_before.go:24-90 | the three adapters form one strict partial order across kinds, and Concurrent is symmetric and never holds of related stamps |
| StampAdapters.OneAnswerOfAKind | ordering/happens_before.go:24-90 | of two Lamport or two HLC stamps exactly one of before, after and concurrent holds; of two vector stamps exactly one does, or they read the same |
| StampAdapters.KindsAreUnrelated | ordering/happens_before.go:24-90 | stamps of different kinds are neither before each other nor concurrent |
| StampAdapters.AdaptersReadTheStamps | ordering/happens_before.go:24-58 | what the Lamport and HLC adapters decide, in the numbers of the stamps |
| StampAdapters.StampsAreStrictlyOrdered | ordering/happens_before.go:8-15 | any events carrying these stamps meet the sort's obligation |
| CausalSort.AdaptersFollowCausality | ordering/happens_before.go:17-22 | in a run no adapter misses a cause or calls cause and effect concurrent, and the vector adapter is exact |
| CausalSort.SortedRunIsCausal | ordering/partial_order.go:13-17 | sorting a run by vector, hybrid or Lamport stamps keeps every event and puts each after all its causes |
| SiblingStore.Store.Write | examples/vector_kv/main.go:29-48 | a stale write changes nothing; otherwise the key's rows lose exactly those older than the write and gain it at the end |
| SiblingStore.Store.Read | examples/vector_kv/main.go:50-52 | the rows of the key, none if it was never written |
| SiblingStore.StoreIsFrontier | examples/vector_kv/main.go:27-48 | after any writes to a key the rows are exactly the maximal versions ever written, each with its first writer's value, in order of writing |
| SiblingStore.StoreSpelledOut | examples/vector_kv/main.go:29-48 | the rows of a key, by position among its writes: those no write is after, and of equal versions the first, in order of writing |
| SiblingStore.UnsurpassedIsMaximal | ordering/partial_order.go:78-96 | those are the versions the frontier function finds from scratch |
| SiblingStore.StoredAreSiblings | examples/vector_kv/main.go:27-28 | stored versions are pairwise Concurrent |
| SiblingStore.EveryWriteIsCovered | examples/vector_kv/main.go:27-28 | every write is Before or Equal to a stored one |
| SiblingStore.DeliveryOrderIsIrrelevant | examples/vector_kv/main.go:29-48 | the stored versions do not depend on the order or repetition of deliveries |
| SiblingStore.KeysAreIndependent | examples/vector_kv/main.go:29-48 | the rows of a key are what its own writes alone produce |
| SiblingStore.StoreKeepsLatestWrites | examples/vector_kv/main.go:27-48 | with stamps from a run, a write is kept exactly when no other write causally follows it |
| DottedVersion.Increment | dotted/version.go:18-25 | a new version whose only difference is the actor's counter plus one |
| DottedVersion.Dots | dotted/version.go:108-114 | the copying loop returns exactly the dots |
| DottedVersion.MergeVersions | dotted/version.go:32-43 | the loops compute the pointwise maximum |
| DottedVersion.Descends | dotted/version.go:50-57 | the loop decides the pointwise order |
| DottedVersion.Dominates | dotted/version.go:63-83 | the two loops decide: descends, and some counter is greater or some key is extra |
| DottedVersion.Equals | dotted/version.go:89-99 | equal entry counts and equal readings |
| DottedVersion.Concurrent | dotted/version.go:103-105 | neither descends from the other |
| DottedVersion.BuiltHasNoZeros | dotted/version.go:13-43 | versions built by New, Increment and Merge with fewer than 2^64 increments on any path store no zero |
| DottedVersion.ShortHistoriesIff | dotted/version.go:13-43 | a version can be built with fewer than 2^64 increments on any path exactly when it stores no zero |
| DottedVersion.ZeroFreeDepthIff | dotted/version.go:85-88 | a limit on the increments of a path keeps every version free of zeros exactly when it is below 2^64 |
| DottedVersion.BuildAny | dotted/version.go:13-43 | every version whatever can be built by enough calls: a stored zero is a counter that has wrapped |
| DottedVersion.OverExactIff | dotted/version.go:63-83 | Dominates means 'descends and is not descended from' exactly unless the versions read the same and the first stores an extra zero |
| DottedVersion.FourWayExclusive | dotted/version.go:59-105 | a version without stored zeros has exactly one of Equals, Dominates, its converse and Concurrent with any version |
| DottedVersion.FourWayIff | dotted/version.go:59-105 | and only such versions have |
| DottedVersion.DescendsIsAPartialOrder | dotted/version.go:45-57 | Descends is reflexive and transitive on all versions, and antisymmetric up to Equals on built ones; in general, versions that descend from each other are Equals exactly when they store equally many dots |
| Counters.MergeIsLeastUpperBound | dotted/version.go:27-31 | a merge descends from both inputs, and whatever descends from both descends from it |
| DottedVersion.MergeCommutesIff | dotted/version.go:32-43 | merge commutes exactly when each side has the keys that the other stores as zero; so on built versions always |
| DottedVersion.MergeAssociates | dotted/version.go:32-43 | merge is associative on all versions |
| DottedVersion.MergeAbsorbsIff | dotted/version.go:32-43 | merge is idempotent; it gives back its argument exactly when that descends from the receiver, and each has the keys the other stores as zero |
| DottedVersion.StoredZeroBreaksMerge | dotted/version.go:18-43 | 2^64 increments of one actor build a version with which merge does not commute, and that Dominates the empty version it reads the same as |
| DottedVersion.IncrementDominatesIff | dotted/version.go:18-25 | a new write dominates what it read exactly unless its counter wraps, on all versions |
| DottedVersion.ForksAreConcurrentIff | dotted/version.go:101-105 | two actors writing from the same version leave siblings exactly unless just one of their counters wraps |
| DottedHistory.DisciplinedIsTelling | dotted/version.go:45-57 | while each actor increments only versions that contain all it has written, Descends is exactly inclusion of the sets of increments behind the versions |
| DottedHistory.TellingIff | dotted/version.go:45-57 | and exactly then, for the versions there are and any two of them merged |
| DottedHistory.VersionKnows | dotted/doc.go:4-5 | a version stands for its history: of each actor's increments the first so many |
| DottedHistory.LostWrite | dotted/version.go:89-105 | two increments by one actor of the same version are equal versions of different histories |
| DottedVersion.DotSum | dotted/resolve.go:53-59 | the sum modulo 2^64 in whatever order the map is iterated |
| DottedVersion.ResolveLatestWriteWins | dotted/resolve.go:37-51 | nothing for an empty slice, else a sibling with the largest sum modulo 2^64, and of equal sums the earliest |
| DottedVersion.WinnerIsUndominated | dotted/resolve.go:26-51 | no sibling whose sum fits a uint64 dominates the winner |
| DottedVersion.WinnerUndominatedIff | dotted/resolve.go:26-51 | a limit on the sums of zero-free siblings keeps every winner undominated exactly when it is below 2^64 |
| DottedVersion.WrappedSumPicksDominated | dotted/resolve.go:54-57 | when a sum reaches 2^64 the winner can be dominated: siblings built without any counter wrapping |
| VectorCodec.MarshalBinary | vector/encode.go:56-89 | fails exactly beyond 65535 entries or an ID of more than 65535 bytes, and otherwise fills the buffer with the canonical encoding whatever the map order |
| CodecLayout.EncodingIsFilled | vector/encode.go:60-79 | the encoding starts with the count, high byte first, has an entry for each ID in increasing order, and ends with the last |
| CodecLayout.EntryIsAt | vector/encode.go:80-87 | where each entry stands and all its bytes: two of length, the ID, eight of value, each number with its most significant byte first |
| BigEndian.DigitAt | vector/encode.go:78-86 | byte k of n is the digit of weight 256^(n-1-k) |
| VectorCodec.PutEntry | vector/encode.go:80-87 | one entry is appended at the moving offset and nothing before it changes |
| VectorCodec.UnmarshalBinary | vector/encode.go:96-124 | on every byte string the bounds-checked loop stays inside the input and returns what the format means, or the error |
| CodecLayout.DecodeIff | vector/encode.go:96-124 | an input is accepted as a vector exactly when it is the count and so many entries, and not a byte more, that leave that vector, sorted or not and repeated or not |
| CodecLayout.LastEntryWins | vector/encode.go:116-116 | of repeated IDs the last entry is kept |
| BigEndian.ValueOfEight | vector/encode.go:114-114 | the value of eight bytes, the first the most significant |
| CodecTheorem.RoundTrip | vector/encode.go:56-124 | decoding undoes encoding for every vector within the limits |
| CodecTheorem.EncodingsAgreeIff | vector/encode.go:50-51 | encodings are equal bytes exactly when the vectors are equal |
| CodecTheorem.ExtensionRejected | vector/encode.go:118-120 | every nonempty extension of an accepted input is rejected |
| CodecTheorem.PrefixRejected | vector/encode.go:104-111 | every strict prefix of an accepted input is rejected |
| CodecTheorem.ReencodeNeverGrows | vector/encode.go:97-120 | an accepted input re-encodes to the same vector in no more bytes, in equally many exactly when no ID repeats |
| CodecTheorem.CanonicalIff | vector/encode.go:50-51 | an accepted input is the encoding of its vector exactly when its IDs are strictly increasing |
| TrueTime.CommitWait | truetime/commit_wait.go:14-44 | on any finite trace of samples and cancellations: cancelled exactly at the first cancelled poll, if nothing up to it was past commitAt; success exactly on the first sample strictly past commitAt, if nothing before it was cancelled |
| TrueTime.PauseIsClamped | truetime/commit_wait.go:28-34 | each pause is the gap, at least 100us and at most 100ms, in nanoseconds |
| TrueTime.SubIsNearest | truetime/commit_wait.go:28-28 | a difference of times is the nearest int64 to the true one |
| TrueTime.EndsUnique | truetime/commit_wait.go:14-44 | those conditions determine the outcome and the pauses |
| TrueTime.CommitWaitBound | truetime/commit_wait.go:25-34 | if Earliest keeps up with the timer, gap g takes at most ceil(g/100ms)+1 pauses and g+100us in all, and then the loop has ended |
| TrueTime.BoundReachedIff | truetime/commit_wait.go:25-34 | either bound is attained exactly for the gaps whose remainder modulo 100ms is zero or at least 100us, and then both by one run |
| TrueTime.WithCommitWait | truetime/commit_wait.go:50-56 | a failing fn skips the wait; otherwise the wait is for the upper end of the interval sampled after it, with the same rule for cancellation and success |
| TrueTime.CommitPaysTheWidth | docs/COMPARISON.md:118-120 | a commit pays at most the interval width plus 100us |
| TransactionRun.ReturnFollowsPick | truetime/commit_wait.go:50-56 | in any interleaving, a commit-wait that succeeds has seen a sample strictly past the timestamp its transaction picked at an earlier step |
| TransactionRun.ExternalConsistency | truetime/doc.go:5-14 | in every run of any number of interleaved transactions over any honest sources, one whose commit-wait returned before another picked has the strictly smaller timestamp |
| TransactionRun.LaterPicksAreLargerIff | truetime/interval.go:32-38 | the samples of a run guarantee a larger timestamp to whoever picks next exactly when one of them is strictly past it, so the strict After is the weakest sound test |
| TransactionRun.DefinitelyIsTooWeak | truetime/interval.go:32-38 | polling the non-strict Definitely would let two transactions in real-time order share a timestamp: a concrete run |
| TransactionRun.StaysPastIff | truetime/commit_wait.go:11-13 | the promise made to later observers of a clock holds, for every timestamp, exactly when its Earliest never goes back |
| TransactionRun.AfterStaysTrue | truetime/commit_wait.go:11-13 | on a clock whose Earliest never goes back, After(commitAt) holds on every sample after the return |
| TransactionRun.LaterEarliestMayLag | truetime/commit_wait.go:11-13 | a later honest sample of the clock that commit-wait polled may begin before the commit timestamp: a concrete run |
| NtpSource.Source.constructor | truetime/ntp_source.go:43-49 | the first exchange fixes offset, dispersion and query time |
| NtpSource.Source.Query | truetime/ntp_source.go:80-96 | offset, dispersion and query time from the four times and the dispersion field: between wall readings where the server's times take part, between monotonic readings where they do not, with saturation, wrap-around and truncation |
| NtpSource.Source.Now | truetime/ntp_source.go:102-119 | the interval around the corrected reading, on the wall clock and on the monotonic clock; elapsed time is monotonic and clamped at zero |
| NtpSource.RootDispersionExact | truetime/ntp_source.go:88-89 | the dispersion product never overflows |
| NtpSource.DriftExactIff | truetime/ntp_source.go:114-114 | the widening is exact precisely while elapsed*200 fits an int64 |
| NtpSource.WidensBy200Ppm | truetime/ntp_source.go:109-118 | while the drift product fits, the interval is the corrected reading give or take the dispersion and 200us for each second elapsed |
| NtpSource.DelayIgnoresSteps | truetime/ntp_source.go:84-84 | the delay is the round trip less the time at the server, however the wall clock is stepped meanwhile |
| NtpSource.OffsetTakesHalfTheStep | truetime/ntp_source.go:83-84 | a step of the wall clock during the exchange changes the offset by half of it, to a nanosecond |
| NtpSource.MeasurementCoversWithin1ns | truetime/ntp_source.go:83-93 | every offset that explains the exchange is covered to within one nanosecond |
| NtpSource.MeasurementCoversIff | truetime/ntp_source.go:83-93 | all of them are covered outright exactly when the delay is even or negative |
| NtpSource.IntervalContainsTruth | truetime/ntp_source.go:102-119 | until the next query the interval contains true time up to that shortfall, if the wall clock strays by at most 200ppm of the time elapsed |
| NtpSource.EarliestNeverGoesBack | truetime/ntp_source.go:109-118 | between queries Earliest, as a process compares it, is non-decreasing in the monotonic reading |
| NtpSource.RequeryKeepsEarliestIff | truetime/ntp_source.go:91-118 | a new query never takes Earliest back, at any two readings around it, exactly when it does not at the moment it ends |
| NtpSource.TimeFromBytes | truetime/ntp_source.go:162-168 | the last nanosecond not after the fixed-point wire timestamp |
| NtpSource.TimeOfBytes | truetime/ntp_source.go:162-168 | the same from the eight bytes: four of seconds since 1900 and four of fraction, most significant first |
| NtpSource.EpochsApart | truetime/ntp_source.go:19-20 | the epochs are 70 years with 17 leap days apart, and the wire form of 1970 decodes to zero |
| NtpSource.EraIgnoredIff | truetime/ntp_source.go:162-168 | the result is the time that section 3 of RFC 4330 assigns exactly when the top bit is set, and 2^32 seconds early otherwise |
| NtpCommitWait.CommitWaitEndsOnNtp | truetime/commit_wait.go:19-43 | on an NTP source, whose Earliest lags the timer by 200ppm, commit-wait still ends, after at most ceil(g/99.975ms)+2 pauses that ask for at most g+g/3999+100us |
| NtpTransactions.ReturnPrecedesPick | truetime/commit_wait.go:50-56 | every return of a commit-wait has its pick, so every later pick is preceded by it |
| NtpTransactions.ConsistencyOnNtp | truetime/doc.go:5-14 | on NTP sources, whose comparisons are monotonic and whose timestamps are wall times, a transaction that returned before another picked has the smaller timestamp, but for one nanosecond a source and any step of its wall clock since it picked |
| NtpTransactions.ConsistentIff | truetime/doc.go:5-14 | all physically possible runs are consistent, up to that nanosecond, exactly when no wall clock is stepped back within a transaction |
| NtpTransactions.StrictIff | truetime/doc.go:5-14 | timestamps are strictly in real-time order, as promised, in all physically possible runs exactly when no wall clock is stepped back within a transaction and no exchange has an odd delay |
| NtpTransactions.StepEndsWaitEarly | truetime/commit_wait.go:20-23 | a wall clock set back by a nanosecond, and a query that corrects it, end commit-wait before time has moved: a physically possible run |
| NtpTransactions.OddDelaysInvert | truetime/ntp_source.go:83-93 | the two nanoseconds are needed: a physically possible run of two clocks whose exchanges have odd delays |
| NtpTransactions.RequeryBreaksPromise | truetime/commit_wait.go:11-13 | a query that reports a larger root dispersion makes Earliest go back, and breaks the promise to later observers: a physically possible run |

## Left out

- JSON encoding (`vector/encode.go:22-39`, `hlc/encode.go:19-32`): it delegates to encoding/json, which is not part of this model.
- The fixed 12-byte HLC codec (`hlc/encode.go:42-57`): it stores the wall time in eight big-endian bytes and the logical part in four, and rejects any other length.
- Mutexes: every clock method holds its lock throughout, so a call is one atomic step and the run model quantifies over all interleavings of calls.
- Go maps as shared references: vectors and dots are value maps here, so that a snapshot does not alias its clock's map is true by construction.
- VectorCodec.UnmarshalBinary: returns the decoded snapshot or nothing instead of assigning through a receiver pointer; on error the source leaves the receiver unchanged.
- PartialOrder.TopologicalSort: the library's stable sort of `order` is a function (an insertion sort) rather than a call into unseen code; HappensBefore is a function parameter in place of the Comparable interface.
- VectorCodec.MarshalBinary: the library's string sort is a function, and error texts are not modelled.
- DottedVersion.ResolveLatestWriteWins: the panic on an empty slice is an empty result.
- TrueTime.CommitWait: timers, contexts and goroutines are a finite trace of samples and cancellations; a loop still running at the end of the trace is reported as waiting.
- NtpSource.Source.Query: sockets, deadlines, the ticker and malformed responses are left out; the model starts from the four times and the dispersion field.
- The year range of time.Time: times are unbounded integers of nanoseconds, and only differences saturate. Outside the NTP modules a time is one number; `NtpSource` and `NtpTransactions` tell its wall and monotonic readings apart. A comparison between times of which only one has a monotonic reading (a `commitAt` that did not come from a clock) is by wall reading.
- `lamport.Reset` (`lamport/clock.go:64-68`): for tests only, and it breaks monotonicity on purpose.
- `FakeSource`, `Width`, `Interval.Before`, `Clock.Before`, `Nodes`, `Get`, `Copy`, `Current`, `Now` as inspection, `ResolveByCustom` and all `String` methods: plain reads, delegation or presentation.
