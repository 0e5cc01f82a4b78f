/**
 * Segmentation of a replica's label timeline into fast-path sequences anchored at
 * IC-finalized iterations (`countFpSequences` in benchmark.py).
 */
module Sequences {
  import opened Wrappers
  import opened Timeline

  /** One fast-path sequence: its length (Python `None` stays possible for the last one)
      and the iteration of the IC finalization that opened it (0 for genesis). */
  datatype FpSequence = FpSequence(length: Option<int>, icIndex: int)

  /** Position of the first observed label ('FP' or 'IC'), or `|arr|` when there is none. */
  function FirstObserved(arr: seq<Label>): (f: nat)
    ensures f <= |arr|
    ensures forall j :: 0 <= j < f ==> arr[j] == Unfinalized
    ensures f < |arr| ==> arr[f] != Unfinalized
  {
    if |arr| == 0 || arr[0] != Unfinalized then 0 else 1 + FirstObserved(arr[1..])
  }

  /** The segmenter adds the pending '-' run to `sequence_length` when an 'FP' follows;
      if no 'FP' or 'IC' has been seen by then, `sequence_length` is still `None` and
      Python raises a TypeError. This is exactly the timelines that open with '-'
      entries followed directly by an 'FP'. */
  predicate NoGapBeforeFirstFp(arr: seq<Label>) {
    var f := FirstObserved(arr);
    f == 0 || f == |arr| || arr[f] != FP
  }

  /** Position of the first 'IC' at or after `lo`, or `|arr|`. */
  function NextIC(arr: seq<Label>, lo: nat): (hi: nat)
    requires lo <= |arr|
    ensures lo <= hi <= |arr|
    ensures hi < |arr| ==> arr[hi] == IC
    decreases |arr| - lo
  {
    if lo == |arr| || arr[lo] == IC then lo else NextIC(arr, lo + 1)
  }

  /** No 'IC' lies between `lo` and the next one. */
  lemma {:induction false} NextICSkips(arr: seq<Label>, lo: nat)
    requires lo <= |arr|
    ensures forall j :: lo <= j < NextIC(arr, lo) ==> arr[j] != IC
    decreases |arr| - lo
  {
    if lo < |arr| && arr[lo] != IC {
      NextICSkips(arr, lo + 1);
    }
  }

  /** Position of the last 'FP' in `arr[lo..hi]`, if any. */
  function LastFp(arr: seq<Label>, lo: nat, hi: nat): (r: Option<nat>)
    requires lo <= hi <= |arr|
    ensures r.Some? ==> lo <= r.value < hi && arr[r.value] == FP
    ensures r.Some? ==> forall j :: r.value < j < hi ==> arr[j] != FP
    ensures r.None? ==> forall j :: lo <= j < hi ==> arr[j] != FP
    decreases hi
  {
    if hi == lo then None
    else if arr[hi - 1] == FP then Some(hi - 1)
    else LastFp(arr, lo, hi - 1)
  }

  /** The iteration that anchors the sequence whose labels start at position `lo`:
      genesis (0) for the first one, else the iteration of the 'IC' just before `lo`. */
  function Anchor(lo: nat, offset: int): int {
    if lo == 0 then 0 else lo - 1 + offset
  }

  /**
   * Reference definition of the segmentation. Every 'IC' closes one sequence and opens
   * the next; a sequence's length is the iteration of its last 'FP' minus its anchor,
   * or 0 when it has no 'FP' (`None` for a timeline without any 'FP' or 'IC').
   */
  function Segments(arr: seq<Label>, offset: int, lo: nat): (r: seq<FpSequence>)
    requires lo <= |arr|
    ensures |r| > 0
    decreases |arr| - lo
  {
    var hi := NextIC(arr, lo);
    if hi == |arr| then [SegmentHead(arr, offset, lo)]
    else [SegmentHead(arr, offset, lo)] + Segments(arr, offset, hi + 1)
  }

  /** The sequence whose labels start at `lo`. */
  function SegmentHead(arr: seq<Label>, offset: int, lo: nat): FpSequence
    requires lo <= |arr|
  {
    var hi := NextIC(arr, lo);
    var anchor := Anchor(lo, offset);
    var length := match LastFp(arr, lo, hi)
      case Some(j) => Some(j + offset - anchor)
      case None => if lo == 0 && hi == |arr| then None else Some(0);
    FpSequence(length, anchor)
  }

  // ----- properties of the segmentation -----

  /** One unfolding of the segmentation: the head, and the sequences after the next 'IC'. */
  lemma SegmentsUnfold(arr: seq<Label>, offset: int, lo: nat)
    requires lo <= |arr|
    ensures Segments(arr, offset, lo)[0].icIndex == Anchor(lo, offset)
    ensures NextIC(arr, lo) == |arr| ==> |Segments(arr, offset, lo)| == 1
    ensures NextIC(arr, lo) < |arr| ==> Segments(arr, offset, lo)[1..] == Segments(arr, offset, NextIC(arr, lo) + 1)
    ensures |Segments(arr, offset, lo)|
            == if NextIC(arr, lo) == |arr| then 1 else 1 + |Segments(arr, offset, NextIC(arr, lo) + 1)|
  {
  }

  /** Counting from `lo` skips a stretch that holds no `x`. */
  lemma {:induction false} CountSkips<T>(s: seq<T>, lo: nat, hi: nat, x: T)
    requires lo <= hi <= |s|
    requires forall j :: lo <= j < hi ==> s[j] != x
    ensures CountFrom(s, lo, x) == CountFrom(s, hi, x)
    decreases hi - lo
  {
    if lo < hi {
      CountSkips(s, lo + 1, hi, x);
    }
  }

  /** There is one sequence per 'IC' from `lo` on, plus the open one; for `lo == 0`:
      `len(sequences) == arr.count('IC') + 1`. */
  lemma {:induction false} SegmentCount(arr: seq<Label>, offset: int, lo: nat)
    requires lo <= |arr|
    ensures |Segments(arr, offset, lo)| == CountFrom(arr, lo, IC) + 1
    decreases |arr| - lo
  {
    var hi := NextIC(arr, lo);
    NextICSkips(arr, lo);
    CountSkips(arr, lo, hi, IC);
    SegmentsUnfold(arr, offset, lo);
    if hi < |arr| {
      SegmentCount(arr, offset, hi + 1);
      assert CountFrom(arr, hi, IC) == 1 + CountFrom(arr, hi + 1, IC);
    }
  }

  /** The first sequence is anchored at genesis. */
  lemma FirstSegmentAtGenesis(arr: seq<Label>, offset: int)
    ensures Segments(arr, offset, 0)[0].icIndex == 0
  {
  }

  /** The sequences after the first are those from just past the next 'IC'. */
  lemma SegmentsTail(arr: seq<Label>, offset: int, lo: nat, k: nat)
    requires lo <= |arr|
    requires 0 < k < |Segments(arr, offset, lo)|
    ensures NextIC(arr, lo) < |arr|
    ensures k - 1 < |Segments(arr, offset, NextIC(arr, lo) + 1)|
    ensures Segments(arr, offset, lo)[k] == Segments(arr, offset, NextIC(arr, lo) + 1)[k - 1]
  {
    SegmentsUnfold(arr, offset, lo);
  }

  /** Every later sequence is anchored at the iteration of an 'IC' at or after `lo`. */
  lemma {:induction false} SegmentAnchorIsIC(arr: seq<Label>, offset: int, lo: nat, k: nat)
    requires lo <= |arr|
    requires 0 < k < |Segments(arr, offset, lo)|
    ensures lo <= Segments(arr, offset, lo)[k].icIndex - offset < |arr|
    ensures arr[Segments(arr, offset, lo)[k].icIndex - offset] == IC
    decreases |arr| - lo
  {
    var hi := NextIC(arr, lo);
    SegmentsTail(arr, offset, lo, k);
    if k > 1 {
      SegmentAnchorIsIC(arr, offset, hi + 1, k - 1);
    } else {
      SegmentsUnfold(arr, offset, hi + 1);
    }
  }

  /** The `k`-th sequence after the first belongs to the `k`-th 'IC' at or after `lo`. */
  lemma {:induction false} SegmentAnchor(arr: seq<Label>, offset: int, lo: nat, k: nat)
    requires lo <= |arr|
    requires 0 < k < |Segments(arr, offset, lo)|
    ensures lo <= Segments(arr, offset, lo)[k].icIndex - offset < |arr|
    ensures CountFrom(arr, lo, IC) == k + CountFrom(arr, Segments(arr, offset, lo)[k].icIndex - offset + 1, IC)
    decreases |arr| - lo
  {
    var hi := NextIC(arr, lo);
    SegmentsTail(arr, offset, lo, k);
    SegmentAnchorIsIC(arr, offset, lo, k);
    NextICSkips(arr, lo);
    CountSkips(arr, lo, hi, IC);
    assert CountFrom(arr, lo, IC) == 1 + CountFrom(arr, hi + 1, IC);
    if k > 1 {
      SegmentAnchor(arr, offset, hi + 1, k - 1);
    } else {
      SegmentsUnfold(arr, offset, hi + 1);
    }
  }

  /** A length is `None` exactly for the single sequence of a timeline that has no
      'FP' and no 'IC' at all. */
  lemma {:induction false} SegmentLengthUndefined(arr: seq<Label>, offset: int, lo: nat, k: nat)
    requires lo <= |arr| && k < |Segments(arr, offset, lo)|
    ensures Segments(arr, offset, lo)[k].length.None?
            <==> k == 0 && lo == 0 && forall j :: 0 <= j < |arr| ==> arr[j] == Unfinalized
    decreases |arr| - lo
  {
    var hi := NextIC(arr, lo);
    if k == 0 {
      NextICSkips(arr, lo);
      if lo == 0 && hi == |arr| && LastFp(arr, lo, hi).None? {
        forall j | 0 <= j < |arr|
          ensures arr[j] == Unfinalized
        {
          assert arr[j] != IC && arr[j] != FP;
        }
      }
    } else {
      var rest := Segments(arr, offset, hi + 1);
      assert Segments(arr, offset, lo)[k] == rest[k - 1];
      SegmentLengthUndefined(arr, offset, hi + 1, k - 1);
    }
  }

  /** Each defined length is the iteration of the sequence's last 'FP' minus its anchor, or 0,
      so no length is negative when the iterations are. */
  lemma {:induction false} SegmentLengthNonNegative(arr: seq<Label>, offset: int, lo: nat, k: nat)
    requires offset >= 0
    requires lo <= |arr| && k < |Segments(arr, offset, lo)|
    requires Segments(arr, offset, lo)[k].length.Some?
    ensures Segments(arr, offset, lo)[k].length.value >= 0
    decreases |arr| - lo
  {
    var hi := NextIC(arr, lo);
    if k > 0 {
      var rest := Segments(arr, offset, hi + 1);
      assert Segments(arr, offset, lo)[k] == rest[k - 1];
      SegmentLengthNonNegative(arr, offset, hi + 1, k - 1);
    }
  }

  /** The example of the analysis: '-' before an 'FP' is folded in, the trailing
      iteration set by the offset, and the second sequence anchored at the 'IC'. */
  lemma WorkedExample()
    ensures Segments([FP, Unfinalized, IC, FP, Unfinalized, FP], 1, 0)
            == [FpSequence(Some(1), 0), FpSequence(Some(3), 3)]
  {
    var arr := [FP, Unfinalized, IC, FP, Unfinalized, FP];
    assert NextIC(arr, 0) == 2;
    assert LastFp(arr, 0, 2) == Some(0);
    assert NextIC(arr, 3) == 6;
    assert LastFp(arr, 3, 6) == Some(5);
  }

  /** A timeline that opens with an observed label (as a filled timeline does) is one the
      segmenter accepts. */
  lemma ObservedStartAccepted(arr: seq<Label>)
    requires |arr| > 0 && arr[0] != Unfinalized
    ensures NoGapBeforeFirstFp(arr)
  {
  }

  // ----- the segmenter's loop, and the facts its invariant rests on -----

  /** A position the running length has already covered once the loop has passed it:
      an 'FP', or the last '-' of a run followed by an 'FP' (the look-ahead fold). */
  predicate Counted(arr: seq<Label>, j: nat)
    requires j < |arr|
  {
    arr[j] == FP || (arr[j] == Unfinalized && j + 1 < |arr| && arr[j + 1] == FP)
  }

  function LastCounted(arr: seq<Label>, lo: nat, hi: nat): (r: Option<nat>)
    requires lo <= hi <= |arr|
    ensures r.Some? ==> lo <= r.value < hi && Counted(arr, r.value)
    ensures r.None? ==> forall j :: lo <= j < hi ==> !Counted(arr, j)
    decreases hi
  {
    if hi == lo then None
    else if Counted(arr, hi - 1) then Some(hi - 1)
    else LastCounted(arr, lo, hi - 1)
  }

  /** One past the last covered position of `arr[lo..hi]`. */
  function Reach(arr: seq<Label>, lo: nat, hi: nat): nat
    requires lo <= hi <= |arr|
  {
    match LastCounted(arr, lo, hi)
    case Some(j) => j + 1
    case None => lo
  }

  /** Where no 'FP' follows, the covered positions end at the last 'FP'. */
  lemma {:induction false} LastCountedIsLastFp(arr: seq<Label>, lo: nat, hi: nat)
    requires lo <= hi <= |arr|
    requires hi == |arr| || arr[hi] != FP
    ensures LastCounted(arr, lo, hi) == LastFp(arr, lo, hi)
    decreases hi
  {
    if hi > lo && arr[hi - 1] != FP {
      LastCountedIsLastFp(arr, lo, hi - 1);
    }
  }

  /** `sequence_length` after the loop has passed `arr[..i]` in the sequence whose labels
      start at `lo`. */
  function RunningLength(arr: seq<Label>, offset: int, lo: nat, i: nat): Option<int>
    requires lo <= i <= |arr|
  {
    match LastCounted(arr, lo, i)
    case Some(j) => Some(j + offset - Anchor(lo, offset))
    case None => if lo == 0 then None else Some(0)
  }

  /** `not_finalized_sequence_len` after the loop has passed `arr[..i]`. */
  function Pending(arr: seq<Label>, lo: nat, i: nat): int
    requires lo <= i <= |arr|
  {
    if i < |arr| && arr[i] == IC then 0 else i - Reach(arr, lo, i)
  }

  /** An 'IC' at `i` closes the sequence that started at `lo`. */
  lemma SegmentsAtIC(arr: seq<Label>, offset: int, lo: nat, i: nat)
    requires lo <= i < |arr| && arr[i] == IC
    requires forall j :: lo <= j < i ==> arr[j] != IC
    ensures Segments(arr, offset, lo)
            == [FpSequence(Some(RunningLength(arr, offset, lo, i).GetOr(0)), Anchor(lo, offset))]
               + Segments(arr, offset, i + 1)
  {
    NextICSkips(arr, lo);
    assert NextIC(arr, lo) == i;
    LastCountedIsLastFp(arr, lo, i);
  }

  /** At the end of the timeline the open sequence is the last one. */
  lemma SegmentsAtEnd(arr: seq<Label>, offset: int, lo: nat)
    requires lo <= |arr|
    requires forall j :: lo <= j < |arr| ==> arr[j] != IC
    ensures Segments(arr, offset, lo) == [FpSequence(RunningLength(arr, offset, lo, |arr|), Anchor(lo, offset))]
  {
    NextICSkips(arr, lo);
    assert NextIC(arr, lo) == |arr|;
    LastCountedIsLastFp(arr, lo, |arr|);
  }

  /** An 'FP' at `i` extends the running length by one, or sets it to `i + offset`
      when it is the first one of the timeline. */
  lemma StepFp(arr: seq<Label>, offset: int, lo: nat, i: nat)
    requires lo <= i < |arr| && arr[i] == FP
    requires forall j :: lo <= j < i ==> arr[j] != IC
    requires lo > 0 ==> arr[lo - 1] == IC
    ensures RunningLength(arr, offset, lo, i + 1)
            == if RunningLength(arr, offset, lo, i).None? then Some(i + offset)
               else Some(RunningLength(arr, offset, lo, i).value + 1)
    ensures Pending(arr, lo, i) == 0 && Pending(arr, lo, i + 1) == 0
  {
    assert Counted(arr, i);
    assert LastCounted(arr, lo, i + 1) == Some(i);
    if i > lo {
      assert Counted(arr, i - 1);
      assert LastCounted(arr, lo, i) == Some(i - 1);
    }
  }

  /** A '-' at `i` followed by an 'IC', or by nothing, or by another '-'. */
  lemma StepGapNotFolded(arr: seq<Label>, offset: int, lo: nat, i: nat)
    requires lo <= i < |arr| && arr[i] == Unfinalized
    requires i + 1 == |arr| || arr[i + 1] != FP
    ensures RunningLength(arr, offset, lo, i + 1) == RunningLength(arr, offset, lo, i)
    ensures Pending(arr, lo, i + 1) == if i + 1 < |arr| && arr[i + 1] == IC then 0 else Pending(arr, lo, i) + 1
  {
    assert !Counted(arr, i);
    assert LastCounted(arr, lo, i + 1) == LastCounted(arr, lo, i);
  }

  /** A '-' at `i` followed by an 'FP': the pending run is folded into the length. */
  lemma StepGapFolded(arr: seq<Label>, offset: int, lo: nat, i: nat)
    requires lo <= i && i + 1 < |arr| && arr[i] == Unfinalized && arr[i + 1] == FP
    requires forall j :: lo <= j < i ==> arr[j] != IC
    requires lo > 0 ==> arr[lo - 1] == IC
    requires NoGapBeforeFirstFp(arr)
    ensures RunningLength(arr, offset, lo, i).Some?
    ensures RunningLength(arr, offset, lo, i + 1)
            == Some(RunningLength(arr, offset, lo, i).value + Pending(arr, lo, i) + 1)
    ensures Pending(arr, lo, i + 1) == 0
  {
    assert Counted(arr, i);
    assert LastCounted(arr, lo, i + 1) == Some(i);
    if RunningLength(arr, offset, lo, i).None? {
      forall j | 0 <= j <= i
        ensures arr[j] == Unfinalized
      {
        if j < i { assert !Counted(arr, j); }
      }
      FirstObservedAfterGap(arr, i);
      assert false;
    }
  }

  /** The segmenter's state after it has passed `arr[..i]`: `lo` is the position just after
      the last 'IC' seen (0 before any), the registered sequences are those the reference
      definition puts before the open one, and the running values are those above. */
  ghost predicate Scanned(arr: seq<Label>, offset: int, lo: nat, i: nat, sequences: seq<FpSequence>,
                          sequenceLength: Option<int>, notFinalizedSequenceLen: int, startingIndex: int)
  {
    && lo <= i <= |arr|
    && (lo > 0 ==> arr[lo - 1] == IC)
    && i <= NextIC(arr, lo)
    && startingIndex == Anchor(lo, offset)
    && sequences + Segments(arr, offset, lo) == Segments(arr, offset, 0)
    && sequenceLength == RunningLength(arr, offset, lo, i)
    && notFinalizedSequenceLen == Pending(arr, lo, i)
  }

  /** The segmenter's variables, and the position just after the last 'IC' seen. */
  datatype ScanState = ScanState(sequences: seq<FpSequence>, sequenceLength: Option<int>,
                                 notFinalizedSequenceLen: int, startingIndex: int, lo: nat)

  ghost predicate ScannedState(arr: seq<Label>, offset: int, i: nat, st: ScanState) {
    Scanned(arr, offset, st.lo, i, st.sequences, st.sequenceLength, st.notFinalizedSequenceLen, st.startingIndex)
  }

  /** One pass of the loop body over `arr[i]`. */
  ghost function ScanStep(arr: seq<Label>, offset: int, st: ScanState, i: nat): ScanState
    requires i < |arr|
  {
    if arr[i] == IC then
      st.(sequences := st.sequences + [FpSequence(Some(st.sequenceLength.GetOr(0)), st.startingIndex)],
          startingIndex := i + offset, sequenceLength := Some(0), lo := i + 1)
    else if arr[i] == FP then
      st.(sequenceLength := if st.sequenceLength == None then Some(i + offset) else Some(st.sequenceLength.value + 1))
    else
      var pending := st.notFinalizedSequenceLen + 1;
      if i < |arr| - 1 && arr[i + 1] == IC then st.(notFinalizedSequenceLen := 0)
      else if i < |arr| - 1 && arr[i + 1] == FP then
        st.(sequenceLength := Some(st.sequenceLength.GetOr(0) + pending), notFinalizedSequenceLen := 0)
      else st.(notFinalizedSequenceLen := pending)
  }

  /** An 'IC' at `i` closes the open sequence and opens the next one at `i + 1`. */
  lemma ScanClosesAtIC(arr: seq<Label>, offset: int, lo: nat, i: nat, sequences: seq<FpSequence>,
                       sequenceLength: Option<int>, notFinalizedSequenceLen: int, startingIndex: int)
    requires Scanned(arr, offset, lo, i, sequences, sequenceLength, notFinalizedSequenceLen, startingIndex)
    requires i < |arr| && arr[i] == IC
    ensures Scanned(arr, offset, i + 1, i + 1,
                    sequences + [FpSequence(Some(sequenceLength.GetOr(0)), startingIndex)],
                    Some(0), notFinalizedSequenceLen, i + offset)
  {
    NextICSkips(arr, lo);
    var closed := FpSequence(Some(sequenceLength.GetOr(0)), startingIndex);
    var tail := Segments(arr, offset, i + 1);
    assert Segments(arr, offset, lo) == [closed] + tail by {
      SegmentsAtIC(arr, offset, lo, i);
    }
    calc {
      (sequences + [closed]) + tail;
      { AppendAssociates(sequences, [closed], tail); }
      sequences + ([closed] + tail);
      sequences + Segments(arr, offset, lo);
      Segments(arr, offset, 0);
    }
    assert RunningLength(arr, offset, i + 1, i + 1) == Some(0);
    assert Pending(arr, i + 1, i + 1) == 0;
    assert notFinalizedSequenceLen == 0;
  }

  lemma ScanIC(arr: seq<Label>, offset: int, i: nat, st: ScanState)
    requires ScannedState(arr, offset, i, st)
    requires i < |arr| && arr[i] == IC
    ensures ScannedState(arr, offset, i + 1, ScanStep(arr, offset, st, i))
  {
    ScanClosesAtIC(arr, offset, st.lo, i, st.sequences, st.sequenceLength, st.notFinalizedSequenceLen, st.startingIndex);
    var next := ScanState(st.sequences + [FpSequence(Some(st.sequenceLength.GetOr(0)), st.startingIndex)],
                          Some(0), st.notFinalizedSequenceLen, i + offset, i + 1);
    assert ScanStep(arr, offset, st, i) == next;
  }

  lemma ScanFp(arr: seq<Label>, offset: int, i: nat, st: ScanState)
    requires ScannedState(arr, offset, i, st)
    requires i < |arr| && arr[i] == FP
    ensures ScannedState(arr, offset, i + 1, ScanStep(arr, offset, st, i))
  {
    NextICSkips(arr, st.lo);
    StepFp(arr, offset, st.lo, i);
  }

  lemma ScanGapNotFolded(arr: seq<Label>, offset: int, i: nat, st: ScanState)
    requires ScannedState(arr, offset, i, st)
    requires i < |arr| && arr[i] == Unfinalized
    requires i + 1 == |arr| || arr[i + 1] != FP
    ensures ScannedState(arr, offset, i + 1, ScanStep(arr, offset, st, i))
  {
    StepGapNotFolded(arr, offset, st.lo, i);
  }

  lemma ScanGapFolded(arr: seq<Label>, offset: int, i: nat, st: ScanState)
    requires ScannedState(arr, offset, i, st)
    requires NoGapBeforeFirstFp(arr)
    requires i + 1 < |arr| && arr[i] == Unfinalized && arr[i + 1] == FP
    ensures st.sequenceLength.Some?
    ensures ScannedState(arr, offset, i + 1, ScanStep(arr, offset, st, i))
  {
    NextICSkips(arr, st.lo);
    StepGapFolded(arr, offset, st.lo, i);
    var next := st.(sequenceLength := Some(st.sequenceLength.value + st.notFinalizedSequenceLen + 1),
                    notFinalizedSequenceLen := 0);
    assert ScanStep(arr, offset, st, i) == next;
  }

  /** One pass of the loop body, over `arr[i - 1]`, keeps the state the one `Scanned` describes. */
  lemma ScanStepPreserves(arr: seq<Label>, offset: int, i: nat)
    requires NoGapBeforeFirstFp(arr)
    requires 0 < i <= |arr|
    requires ScannedState(arr, offset, i - 1, ScanPrefix(arr, offset, i - 1))
    ensures ScannedState(arr, offset, i, ScanPrefix(arr, offset, i))
  {
    var st, j := ScanPrefix(arr, offset, i - 1), i - 1;
    assert ScanPrefix(arr, offset, i) == ScanStep(arr, offset, st, j);
    if arr[j] == IC {
      ScanIC(arr, offset, j, st);
    } else if arr[j] == FP {
      ScanFp(arr, offset, j, st);
    } else if j < |arr| - 1 && arr[j + 1] == FP {
      ScanGapFolded(arr, offset, j, st);
    } else {
      ScanGapNotFolded(arr, offset, j, st);
    }
  }

  /** The state after the loop has passed `arr[..i]`. */
  ghost function ScanPrefix(arr: seq<Label>, offset: int, i: nat): ScanState
    requires i <= |arr|
  {
    if i == 0 then ScanState([], None, 0, 0, 0)
    else ScanStep(arr, offset, ScanPrefix(arr, offset, i - 1), i - 1)
  }

  /** Before the first iteration nothing is registered and the open sequence is anchored at genesis. */
  lemma ScanStart(arr: seq<Label>, offset: int)
    ensures ScannedState(arr, offset, 0, ScanState([], None, 0, 0, 0))
  {
    assert RunningLength(arr, offset, 0, 0) == None;
  }

  /** The loop's state after every prefix is the one `Scanned` describes. */
  lemma {:induction false} ScanPrefixScanned(arr: seq<Label>, offset: int, i: nat)
    requires NoGapBeforeFirstFp(arr)
    requires i <= |arr|
    ensures ScannedState(arr, offset, i, ScanPrefix(arr, offset, i))
  {
    if i == 0 {
      ScanStart(arr, offset);
    } else {
      ScanPrefixScanned(arr, offset, i - 1);
      ScanStepPreserves(arr, offset, i);
    }
  }

  /** `sequence_length` is no longer `None` when a '-' run is folded into it. */
  lemma FoldedLengthDefined(arr: seq<Label>, offset: int, i: nat)
    requires NoGapBeforeFirstFp(arr)
    requires i + 1 < |arr| && arr[i] == Unfinalized && arr[i + 1] == FP
    ensures ScanPrefix(arr, offset, i).sequenceLength.Some?
  {
    ScanPrefixScanned(arr, offset, i);
    ScanGapFolded(arr, offset, i, ScanPrefix(arr, offset, i));
  }

  /** The state after the whole timeline registers exactly the reference segmentation. */
  lemma ScanComplete(arr: seq<Label>, offset: int)
    requires NoGapBeforeFirstFp(arr)
    ensures var st := ScanPrefix(arr, offset, |arr|);
            st.sequences + [FpSequence(st.sequenceLength, st.startingIndex)] == Segments(arr, offset, 0)
  {
    ScanPrefixScanned(arr, offset, |arr|);
    NextICSkips(arr, ScanPrefix(arr, offset, |arr|).lo);
    SegmentsAtEnd(arr, offset, ScanPrefix(arr, offset, |arr|).lo);
  }

  /** `countFpSequences(first_index_offset, arr)`. */
  method CountFpSequences(firstIndexOffset: int, arr: seq<Label>) returns (sequences: seq<FpSequence>)
    requires NoGapBeforeFirstFp(arr)
    ensures sequences == Segments(arr, firstIndexOffset, 0)
  {
    sequences := [];
    var sequenceLength: Option<int> := None;
    var notFinalizedSequenceLen := 0;
    var startingIndex := 0;  // genesis block is IC finalized
    ghost var lo: nat := 0;
    for i := 0 to |arr|
      invariant ScanState(sequences, sequenceLength, notFinalizedSequenceLen, startingIndex, lo)
                == ScanPrefix(arr, firstIndexOffset, i)
    {
      if arr[i] == IC {
        // register previous sequence
        sequences := sequences + [FpSequence(Some(sequenceLength.GetOr(0)), startingIndex)];
        // initialize new sequence
        startingIndex := i + firstIndexOffset;
        sequenceLength := Some(0);
        lo := i + 1;
      } else if arr[i] == FP {
        if sequenceLength == None {
          sequenceLength := Some(i + firstIndexOffset);
        } else {
          sequenceLength := Some(sequenceLength.value + 1);
        }
      } else {
        notFinalizedSequenceLen := notFinalizedSequenceLen + 1;
        if i < |arr| - 1 && arr[i + 1] == IC {
          notFinalizedSequenceLen := 0;
        } else if i < |arr| - 1 && arr[i + 1] == FP {
          FoldedLengthDefined(arr, firstIndexOffset, i);
          sequenceLength := Some(sequenceLength.value + notFinalizedSequenceLen);
          notFinalizedSequenceLen := 0;
        }
      }
    }
    ScanComplete(arr, firstIndexOffset);
    // register last sequence
    sequences := sequences + [FpSequence(sequenceLength, startingIndex)];
  }

  /** A timeline whose first `i + 1` labels are '-' and whose next label is 'FP' is the
      one that makes Python's `None += int` fail. */
  lemma FirstObservedAfterGap(arr: seq<Label>, i: nat)
    requires i + 1 < |arr| && arr[i + 1] == FP
    requires forall j :: 0 <= j <= i ==> arr[j] == Unfinalized
    ensures !NoGapBeforeFirstFp(arr)
  {
    var f := FirstObserved(arr);
    assert !(f < i + 1);
    assert !(f > i + 1);
  }
}
