/**
 * Per-replica result processing of the benchmark analysis (`processResults` and the
 * frequency loop of `plotSequenceLengthDistribution` in benchmark.py): label tallies,
 * fast-path sequences, and the reconciliation of every replica's proposal timings into
 * one shared table of block delays.
 */
module Results {
  import opened Wrappers
  import opened Timeline
  import opened Sequences

  /** A block hash, the key of the proposal-timing tables. */
  type Hash = string

  /** What one replica reports about one block: when it sent it and when it received it. */
  datatype Timing = Timing(sent: Option<int>, received: Option<int>)

  /** The shared record of one block: the send time, and every reported receive time. */
  datatype DelayEntry = DelayEntry(sent: Option<int>, received: seq<int>)

  /** The entry of `h`, or the fresh `{sent: None, received: []}` the reconciliation creates. */
  function EntryOr(entries: map<Hash, DelayEntry>, h: Hash): DelayEntry {
    if h in entries then entries[h] else DelayEntry(None, [])
  }

  /** A timing that reports neither a send nor a receive (the loop only prints a diagnostic). */
  predicate Silent(t: Timing) {
    t.sent.None? && t.received.None?
  }

  /** One replica's timing merged into a block's entry: a reported send overwrites the
      send time; otherwise a reported receive is appended; otherwise nothing changes. */
  function Merged(d: DelayEntry, t: Timing): (r: DelayEntry)
    ensures t.sent.Some? ==> r == d.(sent := t.sent)
    ensures t.sent.None? && t.received.Some? ==> r == d.(received := d.received + [t.received.value])
    ensures Silent(t) ==> r == d
  {
    if t.sent.Some? then d.(sent := t.sent)
    else if t.received.Some? then d.(received := d.received + [t.received.value])
    else d
  }

  /** The shared table after one replica's timings have been merged into it. */
  function Reconciled(entries: map<Hash, DelayEntry>, proposals: map<Hash, Timing>): (r: map<Hash, DelayEntry>)
    ensures r.Keys == entries.Keys + proposals.Keys
    ensures forall h :: h in entries && h !in proposals ==> r[h] == entries[h]
    ensures forall h :: h in proposals ==> r[h] == Merged(EntryOr(entries, h), proposals[h])
  {
    map h | h in entries.Keys + proposals.Keys ::
      if h in proposals then Merged(EntryOr(entries, h), proposals[h]) else entries[h]
  }

  /** The hashes for which the reconciliation prints "didn't send nor receive". */
  function Anomalies(proposals: map<Hash, Timing>): (r: set<Hash>)
    ensures r <= proposals.Keys
    ensures forall h :: h in proposals && proposals[h].sent.Some? ==> h !in r
  {
    set h | h in proposals && Silent(proposals[h])
  }

  /** The timings of the hashes in `done`. */
  function Restrict(proposals: map<Hash, Timing>, done: set<Hash>): (r: map<Hash, Timing>)
    ensures r.Keys == proposals.Keys * done
  {
    map h | h in proposals.Keys * done :: proposals[h]
  }

  /** The loop's state once the hashes in `done` have been merged, in whatever order. */
  ghost predicate ReconciledSoFar(entries: map<Hash, DelayEntry>, anomalies: set<Hash>,
                                  start: map<Hash, DelayEntry>, proposals: map<Hash, Timing>, done: set<Hash>)
  {
    && entries == Reconciled(start, Restrict(proposals, done))
    && anomalies == Anomalies(Restrict(proposals, done))
  }

  /** The timings of `done + {h}` are those of `done` with `h`'s added. */
  lemma RestrictOneMore(proposals: map<Hash, Timing>, done: set<Hash>, h: Hash)
    requires h in proposals
    ensures Restrict(proposals, done + {h}) == Restrict(proposals, done)[h := proposals[h]]
  {
  }

  /** One more silent timing adds its hash to the anomalies, any other adds nothing. */
  lemma AnomaliesOneMore(proposals: map<Hash, Timing>, h: Hash, t: Timing)
    ensures Anomalies(proposals[h := t]) == Anomalies(proposals - {h}) + (if Silent(t) then {h} else {})
  {
  }

  /** Merging one more hash's timing extends the partial reconciliation. */
  lemma ReconcileOneMore(entries: map<Hash, DelayEntry>, anomalies: set<Hash>,
                         start: map<Hash, DelayEntry>, proposals: map<Hash, Timing>, done: set<Hash>, h: Hash)
    requires ReconciledSoFar(entries, anomalies, start, proposals, done)
    requires h in proposals && h !in done
    ensures ReconciledSoFar(entries[h := Merged(EntryOr(entries, h), proposals[h])],
                            anomalies + (if Silent(proposals[h]) then {h} else {}),
                            start, proposals, done + {h})
  {
    var before := Restrict(proposals, done);
    RestrictOneMore(proposals, done, h);
    AnomaliesOneMore(before, h, proposals[h]);
    assert before - {h} == before;
    assert EntryOr(entries, h) == EntryOr(start, h);
  }

  /** Once every hash has been merged, the loop has computed the whole reconciliation. */
  lemma ReconcileDone(entries: map<Hash, DelayEntry>, anomalies: set<Hash>,
                      start: map<Hash, DelayEntry>, proposals: map<Hash, Timing>, done: set<Hash>)
    requires ReconciledSoFar(entries, anomalies, start, proposals, done)
    requires proposals.Keys - done == {}
    ensures entries == Reconciled(start, proposals)
    ensures anomalies == Anomalies(proposals)
  {
    forall h | h in proposals
      ensures h in done
    {
      assert h !in proposals.Keys - done;
    }
    assert Restrict(proposals, done) == proposals;
  }

  // ----- properties of the reconciliation -----

  /** Reconciliation never removes a block: the blocks of the table only grow. */
  lemma ReconcileKeepsBlocks(entries: map<Hash, DelayEntry>, proposals: map<Hash, Timing>)
    ensures entries.Keys <= Reconciled(entries, proposals).Keys
  {
  }

  /** A block reported by a single replica's silent timing ends up as the fresh entry. */
  lemma SilentTimingCreatesEmptyEntry(entries: map<Hash, DelayEntry>, proposals: map<Hash, Timing>, h: Hash)
    requires h in proposals && h !in entries && Silent(proposals[h])
    ensures Reconciled(entries, proposals)[h] == DelayEntry(None, [])
  {
  }

  /** The table after the timings of every replica in turn (the driver's loop over benchmarks). */
  function ReconciledAll(entries: map<Hash, DelayEntry>, replicas: seq<map<Hash, Timing>>): (r: map<Hash, DelayEntry>)
    ensures entries.Keys <= r.Keys
    ensures forall h :: h in r ==> h in entries || exists i :: 0 <= i < |replicas| && h in replicas[i]
    ensures forall h :: h in entries && (forall i :: 0 <= i < |replicas| ==> h !in replicas[i]) ==> r[h] == entries[h]
    decreases |replicas|
  {
    if replicas == [] then entries
    else ReconciledAll(Reconciled(entries, replicas[0]), replicas[1..])
  }

  /** The receive times replicas report for `h` without a send time, in replica order. */
  function Receipts(replicas: seq<map<Hash, Timing>>, h: Hash): seq<int>
    decreases |replicas|
  {
    if replicas == [] then []
    else
      var own := if h in replicas[0] && replicas[0][h].sent.None? && replicas[0][h].received.Some?
                 then [replicas[0][h].received.value] else [];
      own + Receipts(replicas[1..], h)
  }

  /** The send time the last replica that reports one gives for `h`, if any. */
  function LastSent(replicas: seq<map<Hash, Timing>>, h: Hash): Option<int>
    decreases |replicas|
  {
    if replicas == [] then None
    else
      match LastSent(replicas[1..], h)
      case Some(t) => Some(t)
      case None => if h in replicas[0] then replicas[0][h].sent else None
  }

  /** The entry of `h` after one replica's timings. */
  lemma ReconciledEntry(entries: map<Hash, DelayEntry>, proposals: map<Hash, Timing>, h: Hash)
    ensures EntryOr(Reconciled(entries, proposals), h)
            == if h in proposals then Merged(EntryOr(entries, h), proposals[h]) else EntryOr(entries, h)
  {
  }

  /** After every replica's timings, a block's receive list holds the receive times reported
      by the replicas that did not send it, in replica order, after those already there. */
  lemma {:induction false} ReceiptsCollected(entries: map<Hash, DelayEntry>, replicas: seq<map<Hash, Timing>>, h: Hash)
    ensures EntryOr(ReconciledAll(entries, replicas), h).received == EntryOr(entries, h).received + Receipts(replicas, h)
    decreases |replicas|
  {
    if replicas != [] {
      var next := Reconciled(entries, replicas[0]);
      ReceiptsCollected(next, replicas[1..], h);
      ReconciledEntry(entries, replicas[0], h);
      var t := replicas[0];
      var own := if h in t && t[h].sent.None? && t[h].received.Some? then [t[h].received.value] else [];
      assert Receipts(replicas, h) == own + Receipts(replicas[1..], h);
      assert EntryOr(next, h).received == EntryOr(entries, h).received + own;
      AppendAssociates(EntryOr(entries, h).received, own, Receipts(replicas[1..], h));
    }
  }

  /** After every replica's timings, a block's send time is the one reported last, or the
      one it already had when no replica reports one. */
  lemma {:induction false} LastSentWins(entries: map<Hash, DelayEntry>, replicas: seq<map<Hash, Timing>>, h: Hash)
    ensures EntryOr(ReconciledAll(entries, replicas), h).sent
            == match LastSent(replicas, h) case Some(t) => Some(t) case None => EntryOr(entries, h).sent
    decreases |replicas|
  {
    if replicas != [] {
      var next := Reconciled(entries, replicas[0]);
      LastSentWins(next, replicas[1..], h);
      ReconciledEntry(entries, replicas[0], h);
    }
  }

  /** The shared `delays_info` table, updated in place by every replica's processing. */
  class DelaysInfo {
    var entries: map<Hash, DelayEntry>

    constructor()
      ensures entries == map[]
    {
      entries := map[];
    }

    /** The body of the loop over `proposals_timings` for one hash (lines 94-104); it
        reports whether it printed its diagnostic. */
    method Merge(h: Hash, timings: Timing) returns (silent: bool)
      modifies this
      ensures entries == old(entries)[h := Merged(EntryOr(old(entries), h), timings)]
      ensures silent == Silent(timings)
    {
      if h !in entries {
        entries := entries[h := DelayEntry(None, [])];
      }
      silent := false;
      if timings.sent != None {
        entries := entries[h := entries[h].(sent := timings.sent)];
      } else if timings.received != None {
        entries := entries[h := entries[h].(received := entries[h].received + [timings.received.value])];
      } else {
        silent := true;
      }
    }

    /** The loop over `proposals_timings` (lines 93-104); it returns the hashes for which
        it printed its diagnostic. */
    method Reconcile(proposals: map<Hash, Timing>) returns (anomalies: set<Hash>)
      modifies this
      ensures entries == Reconciled(old(entries), proposals)
      ensures anomalies == Anomalies(proposals)
    {
      ghost var start := entries;
      var remaining := proposals.Keys;
      anomalies := {};
      while remaining != {}
        invariant remaining <= proposals.Keys
        invariant ReconciledSoFar(entries, anomalies, start, proposals, proposals.Keys - remaining)
        decreases |remaining|
      {
        var h :| h in remaining;
        ReconcileOneMore(entries, anomalies, start, proposals, proposals.Keys - remaining, h);
        var silent := Merge(h, proposals[h]);
        if silent {
          anomalies := anomalies + {h};
        }
        assert (proposals.Keys - remaining) + {h} == proposals.Keys - (remaining - {h});
        remaining := remaining - {h};
      }
      ReconcileDone(entries, anomalies, start, proposals, proposals.Keys - remaining);
    }
  }

  /** What `processResults` returns, except the floating-point average latency. */
  datatype Summary = Summary(fpFinalizations: nat, icFinalizations: nat, nonFinalizations: nat,
                             sequences: seq<FpSequence>, sequencesLength: seq<Option<int>>)

  /** The lengths of the sequences, in order (lines 90-91). */
  method SequenceLengths(sequences: seq<FpSequence>) returns (lengths: seq<Option<int>>)
    ensures |lengths| == |sequences|
    ensures forall k :: 0 <= k < |sequences| ==> lengths[k] == sequences[k].length
  {
    lengths := [];
    for i := 0 to |sequences|
      invariant |lengths| == i
      invariant forall k :: 0 <= k < i ==> lengths[k] == sequences[k].length
    {
      lengths := lengths + [sequences[i].length];
    }
  }

  /**
   * `processResults` for one replica. Fast-path sequences are computed only in FICC
   * mode (`cod`, the global `COD`); there the segmenter reads `filled_iterations[0]`
   * and needs a timeline it does not crash on.
   */
  method ProcessResults(filledIterations: seq<int>, labels: seq<Label>, delaysInfo: DelaysInfo,
                        proposals: map<Hash, Timing>, cod: bool)
    returns (summary: Summary, anomalies: set<Hash>)
    requires cod ==> |filledIterations| > 0 && NoGapBeforeFirstFp(labels)
    modifies delaysInfo
    ensures summary.fpFinalizations == Count(labels, FP)
    ensures summary.icFinalizations == Count(labels, IC)
    ensures summary.nonFinalizations == Count(labels, Unfinalized)
    ensures summary.fpFinalizations + summary.icFinalizations + summary.nonFinalizations == |labels|
    ensures summary.sequences == if cod then Segments(labels, filledIterations[0], 0) else []
    ensures |summary.sequencesLength| == |summary.sequences|
    ensures forall k :: 0 <= k < |summary.sequences| ==> summary.sequencesLength[k] == summary.sequences[k].length
    ensures delaysInfo.entries == Reconciled(old(delaysInfo.entries), proposals)
    ensures anomalies == Anomalies(proposals)
  {
    var fp, ic, nf := Count(labels, FP), Count(labels, IC), Count(labels, Unfinalized);
    TalliesCoverTimeline(labels, 0);
    var sequences: seq<FpSequence> := [];
    var sequencesLength: seq<Option<int>> := [];
    if cod {
      sequences := CountFpSequences(filledIterations[0], labels);
      sequencesLength := SequenceLengths(sequences);
    }
    anomalies := delaysInfo.Reconcile(proposals);
    summary := Summary(fp, ic, nf, sequences, sequencesLength);
  }

  /** The number of occurrences of every value of `arr` (the frequency loop of
      `plotSequenceLengthDistribution`, lines 116-121). */
  method SequenceLengthDistribution<V(==)>(arr: seq<V>) returns (frequencies: map<V, nat>)
    ensures frequencies.Keys == set x | x in arr
    ensures forall x :: x in frequencies ==> frequencies[x] == multiset(arr)[x]
  {
    frequencies := map[];
    for i := 0 to |arr|
      invariant frequencies.Keys == set x | x in arr[..i]
      invariant forall x :: x in frequencies ==> frequencies[x] == multiset(arr[..i])[x]
    {
      var j := arr[i];
      assert arr[..i + 1] == arr[..i] + [j];
      if j in frequencies {
        frequencies := frequencies[j := frequencies[j] + 1];
      } else {
        frequencies := frequencies[j := 1];
      }
    }
    assert arr[..|arr|] == arr;
  }
}
