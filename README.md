# A verified model of the FICC consensus prototype and its benchmark analysis

This project models the parts of the "Fast IC Consensus" (FICC) prototype that hold decision
logic, together with the benchmark analysis that summarises its runs. It proves their
properties in Dafny.

- **Benchmark analysis** (`benchmark.py`). Modules `Timeline`, `Sequences` and `Results`:
  - gap filling of the sparse per-replica iteration lists;
  - classification of finalizations as fast-path (`FP`) or IC;
  - segmentation of a label timeline into fast-path sequences, each anchored at an
    IC-finalized iteration;
  - the per-replica label tallies;
  - the in-place reconciliation of every replica's proposal timings into the shared
    `delays_info` table;
  - the sequence-length histogram.

  `countFpSequences` is an imperative loop with a one-step look-ahead. It is proved equal to
  an independent reference segmentation, `Sequences.Segments`, whose properties are proved
  separately.
- **Height-indexed bucket store** (`height_index.rs`, module `HeightIndexes`). A class whose
  map from height to a duplicate-free list is updated in place. Insert and remove report
  whether they changed anything. The two indexes of the pool dispatch on the message kind.
- **Round-robin scheduler and component gating** (`consensus.rs`, module `Scheduling`).
  `call_next` tries the calls in cyclic order from its stored index and returns the first
  non-empty result. `on_state_change` builds the seven calls and switches the acknowledger
  and the goodifier on or off through the subnet flags.
- **In-memory consensus pool** (`pool.rs`, module `Pool`). Two sections and an operation
  list. Every insert files its artifact under the fixed key `"Hash"` and keeps an existing
  entry. `apply_changes` builds validated operations but never applies them.
- **Finalization-share rule** (`finalizer.rs`, module `Finalization`). For every height above
  the finalized one, up to the notarized one, the replica finality-signs the unique notarized
  block unless one of the following holds:
  - it already signed that height;
  - the notarized block is not unique;
  - in FICC mode, the block is not good;
  - the replica has a notarization share for a different block at that height.
- **Fast-path acknowledgement** (`acknowledger.rs`, module `Acknowledgement`). Every group of
  shares at the next height that is an acknowledgement with at least `n - f` signers yields a
  full notarization (signature 0) and a full finalization (signature 10).
- **Shared shapes** (modules `Messages` and `Wrappers`):
  - `Messages` holds the message shapes (after `artifacts.rs` and the subcomponents);
  - `Messages` also holds `u8`/`u64` as Dafny newtypes;
  - `Wrappers` holds the `Option` type.

Imperative code is modelled imperatively:
- `HeightIndex`, `InMemoryPoolSection`, `PoolSectionOps`, `ConsensusPoolImpl`, `RoundRobin`,
  `Finalizer` and `DelaysInfo` are classes whose methods update their fields;
- the loops of `fillMissingElements`, `countFpSequences`, `mutate`, `apply_changes`,
  `call_next`, the `delays_info` loop and the histogram loop are `for`/`while` loops with
  invariants, each proved against a specification function.

Several inputs are not defined in the modelled files, so they are parameters of the model:
- the pool reads;
- `block_is_good`;
- `crypto_hash`;
- `aggregate`;
- what each subcomponent returns in a round.

The Rust files do not compile against each other as shown: `Goodifier::new` and
`Acknowledger::on_state_change` are called with other arities than they declare. Each file is
modelled against its own definitions.

## Model

| member | source | states |
|---|---|---|
| Timeline.CountFrom | benchmark.py:83-85 | `list.count` from a position: at most the remaining length, and 0 iff the value does not occur there |
| Timeline.Count | benchmark.py:83-85 | `list.count`: at most the length, and 0 iff the value is absent |
| Timeline.Min | benchmark.py:14 | `min(iterations)`: an element of the non-empty list, no larger than any element |
| Timeline.Max | benchmark.py:14 | `max(iterations)`: an element of the non-empty list, no smaller than any element |
| Timeline.IndexOf | benchmark.py:16 | `list.index`: a position holding `x`, with no earlier occurrence of `x` |
| Timeline.Axis | benchmark.py:14-20 | the filled iteration list has length `max - min + 1`, and entry `k` is `min + k` |
| Timeline.Filled | benchmark.py:14-21 | the filled metric list has one entry per axis iteration: the first observed metric of that iteration, or the default |
| Timeline.FillMissingElements | benchmark.py:11-22 | the loop produces exactly `Axis` and `Filled` (requires a non-empty `iterations`, as `min`/`max` do) |
| Timeline.AxisIsDense | benchmark.py:14 | the axis starts at the smallest observed iteration, ends at the largest and steps by one |
| Timeline.ObservedIterationKeepsItsMetric | benchmark.py:15-18 | every observed iteration lies on the axis and keeps the metric of its first occurrence |
| Timeline.DistinctIterationKeepsOwnMetric | benchmark.py:15-18 | with distinct iterations (JSON keys), each observed iteration keeps its own metric |
| Timeline.MissingIterationsGetDefault | benchmark.py:19-21 | every iteration that was not observed holds the default |
| Timeline.Classify | benchmark.py:150 | a record is labelled `FP` iff its `fp_finalization` flag is set, and `IC` otherwise; never `-` |
| Timeline.ClassifyAll | benchmark.py:150 | the comprehension labels every record, in order, with `FP` or `IC` |
| Timeline.FilledLabelsOpenObserved | benchmark.py:14 | a filled label timeline is non-empty and its first label is observed, not `-` |
| Timeline.ReplicaTimeline | benchmark.py:147-151 | latencies (default 0) and labels (default `-`) are filled on the same axis, with equal lengths, and the labels open with an observed label |
| Timeline.TalliesCoverTimeline | benchmark.py:83-85 | the `FP`, `IC` and `-` counts of a label list sum to its length |
| Sequences.FirstObserved | benchmark.py:29-50 | the position of the first observed label: everything before it is `-` |
| Sequences.NextIC | benchmark.py:30 | the first `IC` at or after a position, or the end |
| Sequences.NextICSkips | benchmark.py:30 | no `IC` lies between a position and the next `IC` |
| Sequences.LastFp | benchmark.py:39-43 | the last `FP` of a stretch, if any; none follows it in the stretch |
| Sequences.Segments | benchmark.py:24-58 | the reference segmentation; it always has at least one sequence |
| Sequences.SegmentCount | benchmark.py:30-56 | there is one sequence per `IC`, plus the final one: `len(sequences) == arr.count('IC') + 1` |
| Sequences.FirstSegmentAtGenesis | benchmark.py:28 | the first sequence is anchored at iteration 0 (genesis) |
| Sequences.SegmentAnchorIsIC | benchmark.py:30-38 | every later sequence is anchored at `i + first_index_offset` for a position `i` that holds an `IC` |
| Sequences.SegmentAnchor | benchmark.py:30-38 | the `k`-th later sequence belongs to the `k`-th `IC`: exactly `k` of them lie from the start up to its anchor's position |
| Sequences.SegmentLengthUndefined | benchmark.py:33-54 | a length is `None` exactly for the single sequence of a timeline with neither `FP` nor `IC` |
| Sequences.SegmentLengthNonNegative | benchmark.py:37-50 | with a non-negative offset, every defined length is non-negative |
| Sequences.WorkedExample | benchmark.py:24-58 | labels `[FP,-,IC,FP,-,FP]` with offset 1 give `[{length 1, IC_index 0}, {length 3, IC_index 3}]` |
| Sequences.ObservedStartAccepted | benchmark.py:40-49 | a timeline opening with an observed label never folds a `-` run into a `None` length |
| Sequences.FirstObservedAfterGap | benchmark.py:44-49 | a timeline opening with `-` entries followed by `FP` is the one on which `None += int` fails |
| Sequences.FoldedLengthDefined | benchmark.py:48-49 | when a `-` run is folded into the length, the length is already defined |
| Sequences.ScanComplete | benchmark.py:29-56 | after the last label, the state of the loop plus the final sequence is the reference segmentation |
| Sequences.CountFpSequences | benchmark.py:24-58 | the loop with its look-ahead returns exactly `Segments(arr, first_index_offset, 0)`: `-` runs before an `FP` are folded in, runs before an `IC` or at the end are dropped, and each length is the last `FP`'s iteration minus the anchor |
| Results.Merged | benchmark.py:99-104 | a reported send overwrites `sent`; otherwise a reported receive is appended; a timing with neither changes nothing |
| Results.Reconciled | benchmark.py:93-104 | the table keeps every key and gains the keys of `proposals_timings`; other entries are untouched; each reported hash holds its merged entry, starting from `{sent: None, received: []}` |
| Results.Anomalies | benchmark.py:103-104 | the hashes reported with neither a send nor a receive time; every one is a reported hash, and no hash with a send time is among them |
| Results.ReconciledAll | benchmark.py:146-160 | the table after every replica in turn keeps all its keys, gains only reported hashes, and leaves an entry no replica reports untouched |
| Results.Restrict | benchmark.py:93 | the timings of the hashes processed so far |
| Results.ReconcileOneMore | benchmark.py:93-104 | processing one more hash extends the partial reconciliation and its diagnostics |
| Results.ReconcileDone | benchmark.py:93-104 | once every hash is processed, the table is the whole reconciliation and the diagnostics are the silent hashes |
| Results.ReconcileKeepsBlocks | benchmark.py:93-104 | reconciliation never removes a key |
| Results.SilentTimingCreatesEmptyEntry | benchmark.py:94-104 | a new hash with a silent timing still gets the fresh entry `{sent: None, received: []}` |
| Results.ReconciledEntry | benchmark.py:93-104 | after one replica, a hash's entry is merged exactly when the replica reports it |
| Results.ReceiptsCollected | benchmark.py:146-160 | across all replicas, a block's receive list holds the receive times of the replicas that did not send it, in replica order, after those already present |
| Results.LastSentWins | benchmark.py:146-160 | across all replicas, a block's send time is the last one reported, or the earlier value when none is reported |
| Results.DelaysInfo.Merge | benchmark.py:94-104 | one hash's loop body: the table changes only at that hash, to the merged entry; it reports whether it printed the diagnostic |
| Results.DelaysInfo.Reconcile | benchmark.py:93-104 | the in-place loop leaves exactly `Reconciled(old table, proposals)`; the diagnostics are exactly the silent hashes |
| Results.SequenceLengths | benchmark.py:90-91 | one length per sequence, in order |
| Results.ProcessResults | benchmark.py:79-113 | the tallies are the label counts and sum to the timeline length; in FICC mode the sequences are the reference segmentation anchored at `filled_iterations[0]`, else none; the lengths follow the sequences; the shared table is reconciled in place |
| Results.SequenceLengthDistribution | benchmark.py:115-121 | the histogram's keys are exactly the values present, each mapped to its number of occurrences |
| HeightIndexes.Without | src/consensus_layer/height_index.rs:41-42 | `retain(x != value)` keeps exactly the other elements; the length drops iff `value` was present |
| HeightIndexes.InsertInto | src/consensus_layer/height_index.rs:28-35 | after insert, `value` is in bucket `height`, only that height changes, and nothing changes when `value` was already there |
| HeightIndexes.RemoveFrom | src/consensus_layer/height_index.rs:39-50 | after remove, `value` is not at `height` and no empty bucket is left; other heights are untouched; with no bucket at `height` nothing changes |
| HeightIndexes.HeightIndex.constructor | src/consensus_layer/height_index.rs:11-24 | a new index is empty and meets the invariant `Valid` (no empty bucket, no duplicate in a bucket) |
| HeightIndexes.HeightIndex.Insert | src/consensus_layer/height_index.rs:28-35 | keeps `Valid`; returns true iff `value` was not yet at `height`, and leaves `InsertInto` of the old buckets |
| HeightIndexes.HeightIndex.Remove | src/consensus_layer/height_index.rs:39-50 | keeps `Valid`; returns true iff `value` was at `height`, and leaves `RemoveFrom` of the old buckets |
| HeightIndexes.WithoutKeepsNoDuplicates | src/consensus_layer/height_index.rs:41-42 | `retain` keeps a bucket duplicate-free |
| HeightIndexes.InsertKeepsWellFormed | src/consensus_layer/height_index.rs:28-35 | insert keeps every bucket non-empty and duplicate-free |
| HeightIndexes.RemoveKeepsWellFormed | src/consensus_layer/height_index.rs:39-50 | remove keeps every bucket non-empty and duplicate-free |
| HeightIndexes.WithoutRemovesOne | src/consensus_layer/height_index.rs:41-42 | in a duplicate-free bucket, `retain` removes the one occurrence and keeps the order of the rest |
| HeightIndexes.WithoutAbsent | src/consensus_layer/height_index.rs:41-42 | `retain` of an absent value leaves the bucket as it was |
| HeightIndexes.RemoveAbsentChangesNothing | src/consensus_layer/height_index.rs:39-50 | removing a value that is not at `height` changes nothing |
| HeightIndexes.WithoutUndoesPush | src/consensus_layer/height_index.rs:31-42 | `retain` undoes the `push` of a fresh value |
| HeightIndexes.InsertRemoveRoundTrip | src/consensus_layer/height_index.rs:28-50 | insert of a fresh value followed by its remove restores the store exactly, deleting a bucket the insert created |
| HeightIndexes.Indexes.constructor | src/consensus_layer/height_index.rs:60-65 | both indexes start empty and are distinct objects |
| HeightIndexes.Indexes.Insert | src/consensus_layer/height_index.rs:67-77 | keeps both indexes valid; a notarization share goes to the share index at its height, a block proposal to the proposal index at its block's height; the other index is untouched |
| HeightIndexes.Indexes.Remove | src/consensus_layer/height_index.rs:79-88 | keeps both indexes valid; the same routing for removal; the other index is untouched |
| Pool.OrInsert | src/consensus_layer/pool.rs:29-32 | an insert files its artifact under `"Hash"` only if that key is free; nothing else changes |
| Pool.Applied | src/consensus_layer/pool.rs:20-27 | `mutate`'s loop over the operations: any operation adds only the key `"Hash"`, and no other key changes |
| Pool.AppliedConcatenates | src/consensus_layer/pool.rs:20-27 | applying two operation lists in turn is applying their concatenation |
| Pool.FirstInsertWins | src/consensus_layer/pool.rs:29-32 | the first artifact ever inserted is the one kept; later inserts are ignored |
| Pool.AtMostOneArtifact | src/consensus_layer/pool.rs:29-32 | a section holds at most one artifact |
| Pool.PoolSectionOps.constructor | src/consensus_layer/pool.rs:103-105 | a new operation list is empty |
| Pool.PoolSectionOps.Insert | src/consensus_layer/pool.rs:107-109 | appends exactly one insert at the end |
| Pool.InMemoryPoolSection.constructor | src/consensus_layer/pool.rs:14-18 | a new section is empty |
| Pool.InMemoryPoolSection.Insert | src/consensus_layer/pool.rs:29-32 | the section becomes `OrInsert` of the old one |
| Pool.InMemoryPoolSection.Mutate | src/consensus_layer/pool.rs:20-27 | the operations are applied in list order |
| Pool.ValidatedOps | src/consensus_layer/pool.rs:56-75 | one validated insert per change action, carrying its message, whether it adds or moves |
| Pool.ValidatedOpsExtend | src/consensus_layer/pool.rs:56-75 | one more change action adds one validated insert at the end |
| Pool.ValidatedOpsSplit | src/consensus_layer/pool.rs:56-75 | the validated operations of two change sets concatenate |
| Pool.ConsensusPoolImpl.constructor | src/consensus_layer/pool.rs:41-46 | both sections start empty |
| Pool.ConsensusPoolImpl.Insert | src/consensus_layer/pool.rs:48-52 | only the unvalidated section changes, by one `OrInsert` |
| Pool.ConsensusPoolImpl.ApplyChanges | src/consensus_layer/pool.rs:54-76 | the loop builds one validated operation per change, but neither section changes |
| Pool.ConsensusPoolImpl.ApplyChangesValidated | src/consensus_layer/pool.rs:78-82 | the validated section takes the operations, and is unchanged when there are none; the other section is untouched |
| Pool.ConsensusPoolImpl.ApplyChangesUnvalidated | src/consensus_layer/pool.rs:84-88 | the same for the unvalidated section |
| Scheduling.Cyclic | src/consensus_layer/consensus.rs:35-41 | the `j`-th index of the cyclic order starting at `start` is below `n` |
| Scheduling.CyclicStep | src/consensus_layer/consensus.rs:41 | `(next + 1) % calls.len()` is the next position of the cyclic order |
| Scheduling.CyclicCoversAll | src/consensus_layer/consensus.rs:35-41 | the first `n` positions of the cyclic order reach every call |
| Scheduling.RoundRobin.constructor | src/consensus_layer/consensus.rs:20-23 | the stored index starts at 0 |
| Scheduling.RoundRobin.CallNext | src/consensus_layer/consensus.rs:30-44 | as written: calls are made in cyclic order from the stored index; every call before the last returned nothing; the result and flag are the last call's; empty iff every call is empty, in which case `calls.len()` calls were made; the stored index is not changed |
| Scheduling.RoundRobin.CallNextRotating | src/consensus_layer/consensus.rs:19-44 | corrected: the same calls and result, and the index moves just past the call that answered (unchanged when all were empty) |
| Scheduling.StarvationAsWritten | src/consensus_layer/consensus.rs:35-42 | as written, two rounds over two busy calls both return the first call's changes |
| Scheduling.FairRounds | src/consensus_layer/consensus.rs:19-29 | with the rotation, rounds over busy calls serve them in cyclic order from the stored index, and `calls.len()` rounds serve every call |
| Scheduling.AllTried | src/consensus_layer/consensus.rs:35-40 | after a full cycle of empty results every call is empty |
| Scheduling.AddAllToValidated | src/consensus_layer/consensus.rs:191-196 | one `AddToValidated` per message, in order |
| Scheduling.AddToValidatedIfAny | src/consensus_layer/consensus.rs:198-201 | at most one change, present iff there is a message |
| Scheduling.Calls | src/consensus_layer/consensus.rs:119-183 | seven calls in schedule order |
| Scheduling.AcknowledgeGate | src/consensus_layer/consensus.rs:119-130 | the acknowledger contributes only when both `consensus_on_demand` and the goodifier flag are on, and then all its messages, broadcast |
| Scheduling.GoodifyGate | src/consensus_layer/consensus.rs:165-173 | the goodifier contributes when either flag is on, and its changes are never broadcast |
| Scheduling.UngatedCalls | src/consensus_layer/consensus.rs:132-160 | finalize, aggregate, notarize and make_block always contribute their messages, broadcast; validate contributes its own result |
| Scheduling.ConsensusImpl.constructor | src/consensus_layer/consensus.rs:61-90 | keeps the subnet parameters; the schedule starts at index 0 |
| Scheduling.ConsensusImpl.OnStateChange | src/consensus_layer/consensus.rs:92-188 | over the rotating schedule, it returns the first non-empty change set, and its broadcast flag, among the seven calls taken in cyclic order from the stored index. Every call before that one is empty. The result is empty iff every call is empty. The index then moves just past the call that answered, and stays unchanged when all were empty. From index 0, a non-empty acknowledger result wins |
| Scheduling.FinalizerAnswersFirst | src/consensus_layer/consensus.rs:97-100 | with both flags off, a round from index 0 skips the switched-off acknowledger and returns the finalizer's change set, broadcast; the next round starts at the aggregator |
| Finalization.AlreadySigned | src/consensus_layer/consensus_subcomponents/finalizer.rs:100-105 | the replica already has a finalization share at `h` signed `10 + node_id` |
| Finalization.NoPanicAt | src/consensus_layer/consensus_subcomponents/finalizer.rs:100-118 | the pick at `h` returns before its panic: the replica signed `h` already, or some block is notarized at `h` |
| Finalization.VotedForOther | src/consensus_layer/consensus_subcomponents/finalizer.rs:135-152 | the replica has a notarization share at `h`, COD or ICC, for a block other than the notarized one |
| Finalization.Finalizable | src/consensus_layer/consensus_subcomponents/finalizer.rs:62-63 | no height of the range `finalized + 1 ..= notarized` reaches the panic |
| Finalization.PickBlockToFinalitySign | src/consensus_layer/consensus_subcomponents/finalizer.rs:97-155 | a block is picked iff the replica has no finalization share at `h` signed `10 + node_id`, exactly one block is notarized at `h`, in FICC mode that block is good, and the replica has no notarization share (COD or ICC) at `h` for another block; the pick is that block; zero notarized blocks is a precondition (the source panics) |
| Finalization.FinalizeHeight | src/consensus_layer/consensus_subcomponents/finalizer.rs:76-86 | a share exists iff a block is picked; it has height `h`, the picked block's hash and signature `10 + node_id` |
| Finalization.SharesFrom | src/consensus_layer/consensus_subcomponents/finalizer.rs:62-71 | at most one share per height of the range, each a finalization share for a height in the range |
| Finalization.SharesSound | src/consensus_layer/consensus_subcomponents/finalizer.rs:62-86 | every share produced is exactly the share `finalize_height` makes for its height |
| Finalization.SharesComplete | src/consensus_layer/consensus_subcomponents/finalizer.rs:62-71 | every height of the range that can be signed gets its share |
| Finalization.SharesIncreasing | src/consensus_layer/consensus_subcomponents/finalizer.rs:62-71 | shares come in strictly increasing height, so at most one per height |
| Finalization.ShareNamesNotarizedBlock | src/consensus_layer/consensus_subcomponents/finalizer.rs:108-152 | with a collision-free hash, a signed height has exactly one notarized block, and every own notarization share there names that block |
| Finalization.Finalizer.constructor | src/consensus_layer/consensus_subcomponents/finalizer.rs:39-45 | the previous finalized height starts at 0 |
| Finalization.Finalizer.OnStateChange | src/consensus_layer/consensus_subcomponents/finalizer.rs:50-72 | `prev_finalized_height` becomes the maximum of its old value and the finalized height, so it never decreases; the output is the shares of `finalized + 1 ..= notarized` |
| Finalization.NothingBeyondNotarized | src/consensus_layer/consensus_subcomponents/finalizer.rs:59-62 | nothing is signed when the notarized height does not exceed the finalized one |
| Acknowledgement.Qualifies | src/consensus_layer/consensus_subcomponents/acknowledger.rs:38 | a group is acted on iff it is an acknowledgement and its committee has at least `total - faulty` signers |
| Acknowledgement.Acknowledge | src/consensus_layer/consensus_subcomponents/acknowledger.rs:44-65 | the notarization with signature 0 and the finalization with signature 10 of a group's height and block |
| Acknowledgement.OnStateChange | src/consensus_layer/consensus_subcomponents/acknowledger.rs:32-67 | the output for the shares one above the notarized height consists of two messages per qualifying group, in group order. Message `2k` is the notarization, signed 0, of the `k`-th group's height and block; message `2k+1` is its finalization, signed 10 |
| Acknowledgement.QualifyingGroups | src/consensus_layer/consensus_subcomponents/acknowledger.rs:37-43 | a group is kept iff it is an acknowledgement with at least `total - faulty` signers |
| Acknowledgement.AckMessages | src/consensus_layer/consensus_subcomponents/acknowledger.rs:37-66 | the output has two messages per qualifying group |
| Acknowledgement.AckPairs | src/consensus_layer/consensus_subcomponents/acknowledger.rs:44-65 | messages `2k` and `2k+1` are the notarization (signature 0) and the finalization (signature 10) of the `k`-th qualifying group's height and block |
| Acknowledgement.AckMessagesConcatenate | src/consensus_layer/consensus_subcomponents/acknowledger.rs:37-66 | the output follows the order of the grouped input |
| Acknowledgement.QualifyingConcatenate | src/consensus_layer/consensus_subcomponents/acknowledger.rs:37-43 | the filter keeps the order of the grouped input |
| Acknowledgement.NonQualifyingIgnored | src/consensus_layer/consensus_subcomponents/acknowledger.rs:37-43 | a group that does not qualify contributes nothing wherever it sits |
| Acknowledgement.OnlyNextHeightMatters | src/consensus_layer/consensus_subcomponents/acknowledger.rs:34-36 | only the notarized height and the shares at the height above it decide the output |
| Acknowledgement.AckMessagesSound | src/consensus_layer/consensus_subcomponents/acknowledger.rs:37-66 | every message is the notarization or finalization, with the committee signature, of some qualifying group |

## Left out

- The float conversion of latencies and the average latency (benchmark.py, lines 80-82 and 148) are left out. Latencies are opaque values; only their filling is modelled.
- JSON reading, printing (`printMetrics`, the diagnostic at line 104) and plotting are I/O and are left out. The diagnostic is modelled as the returned set of silent hashes.
- The Rust `println!` diagnostics are output only and are left out. They are at pool.rs lines 25 and 55, finalizer.rs line 66 and acknowledger.rs lines 33 and 39.
- The driver loop of `getResults` is not modelled. Its per-replica filling is `Timeline.ReplicaTimeline`, and its accumulation across replicas is the function `Results.ReconciledAll` with its two lemmas; it is not a method.
- Results.DelaysInfo.Reconcile: processes the hashes in an unspecified order instead of Python's dict insertion order. Each hash is merged exactly once, so the final table is the same. The diagnostics are a set, not an ordered printout.
- `COD` is the global constant `True` (benchmark.py, line 192). `ProcessResults` takes it as a parameter so that both modes are covered.
- Timeline.FillMissingElements: requires `metrics` to be at least as long as `iterations`, as the two lists from the same JSON object always are. Python would raise an `IndexError` otherwise.
- `filled_iterations[0]` in `processResults` needs a non-empty timeline, and `countFpSequences` crashes on a timeline that opens with `-` followed by `FP`. `Results.ProcessResults` requires both in FICC mode. Every filled timeline meets both (`Timeline.ReplicaTimeline`, `Sequences.ObservedStartAccepted`).
- Scheduling: the subcomponents are lazy closures in the source, so a component after the first non-empty one is never run. The model takes every component's output as given. A side effect of a component that would not have run is therefore outside the model; for example, the finalizer updates its previous finalized height only when it is called.
- Scheduling.ConsensusImpl.OnStateChange: the goodifier's result and the acknowledger's inputs are taken as given. `Goodifier::new` and `Acknowledger::on_state_change` are called there with arities that do not match their declarations.
- Scheduling.RoundRobin.CallNext and Scheduling.RoundRobin.CallNextRotating: require at least one call. With none, `calls[next]` at consensus.rs line 36 panics on the index. The only caller passes seven calls.
- Scheduling.ConsensusImpl.OnStateChange: uses the rotating schedule of the finding below, not the `call_next` as written.
- Finalization.PickBlockToFinalitySign: zero notarized blocks at a height is a precondition, because the source panics there.
- Finalization.Finalizer.OnStateChange: requires `finalized_height < u64::MAX` and `node_id <= 245`, since `finalized_height + 1` and `10 + node_id` overflow otherwise.
- Acknowledgement.OnStateChange: requires `notarized_height < u64::MAX` for `notarized_height + 1`. `aggregate` is not defined in the modelled files, so it is a parameter. The type of `total_nodes_number - faulty_nodes_number` is not shown; the model subtracts on integers.
- The pool reads, `block_is_good` and `crypto_hash` are not defined in the modelled files. The finalizer takes them as a parameter record and a hash function; injectivity of the hash is assumed only where a lemma needs it.
- Networking, threads, the proof-of-work miner, the clock, the block maker, the notary, the aggregator, the validator and the goodifier are not part of this model. They are I/O, concurrency or stubs with no logic to specify.
- The `ConsensusMessage` enumeration is not part of this model. Only the variants the modelled components build or route are defined.

## Findings

| source | as written | input that shows it | evidently intended | confidence | as-written member | corrected member |
|---|---|---|---|---|---|---|
| src/consensus_layer/consensus.rs:35-42 | the loop is left only through `return`, so `*index = next` at line 42 never runs and every round starts at the same call | two calls that both have changes, `[([0], true), ([1], true)]`: both rounds return `[0]` and the second call is never run | the round-robin rotation the comment at line 19 describes: leave the loop with the result, then store the position after the call that answered | medium, not executed | Scheduling.StarvationAsWritten | Scheduling.RoundRobin.CallNextRotating |
