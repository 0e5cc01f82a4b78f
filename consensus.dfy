/**
 * The consensus scheduler (consensus.rs): every round the subcomponents are tried in a
 * round-robin order starting at a stored index, and the first non-empty change set is
 * returned together with whether it is to be broadcast. Before the list is built, the
 * acknowledger and the goodifier are switched off or on by the subnet's protocol flags.
 */
module Scheduling {
  import opened Wrappers
  import opened Messages

  /** The change set a subcomponent returns. */
  type ChangeSet = seq<ChangeAction<ConsensusMessage>>

  /** The subnet flags and sizes the components read (`SubnetParams`). */
  datatype SubnetParams = SubnetParams(consensusOnDemand: bool, goodifier: bool,
                                       totalNodesNumber: nat, faultyNodesNumber: nat)

  /** Position `j` of the cyclic order over `n` calls that starts at `start`. */
  function Cyclic(start: nat, n: nat, j: nat): (r: nat)
    requires start < n && j <= n
    ensures r < n
  {
    if start + j < n then start + j else start + j - n
  }

  /** `(next + 1) % calls.len()` moves one step along the cyclic order. */
  lemma CyclicStep(start: nat, n: nat, j: nat)
    requires start < n && j < n
    ensures (Cyclic(start, n, j) + 1) % n == Cyclic(start, n, j + 1)
  {
    ModSucc(Cyclic(start, n, j), n);
  }

  lemma ModSucc(x: nat, n: nat)
    requires x < n
    ensures (x + 1) % n == if x + 1 == n then 0 else x + 1
  {
  }

  /** The first `n` positions of the cyclic order visit every index below `n`. */
  lemma CyclicCoversAll(start: nat, n: nat, p: nat)
    requires start < n && p < n
    ensures var j := if start <= p then p - start else p + n - start;
            j < n && Cyclic(start, n, j) == p
  {
  }

  /** `RoundRobin`, holding the index the next round starts at. */
  class RoundRobin {
    var index: nat

    constructor()
      ensures index == 0
    {
      index := 0;
    }

    /**
     * `call_next` (lines 30-44) as written, over the results the calls would return, in
     * list order. It also returns the indices of the calls it made, in the order it made
     * them. The loop is left only through `return`, so the write of the index after it
     * never runs and the index is not changed.
     */
    method CallNext<T>(calls: seq<(seq<T>, bool)>) returns (result: seq<T>, toBroadcast: bool, invoked: seq<nat>)
      requires 0 < |calls| && index < |calls|
      ensures 0 < |invoked| <= |calls|
      ensures forall j :: 0 <= j < |invoked| ==> invoked[j] < |calls| && invoked[j] == Cyclic(index, |calls|, j)
      ensures forall j :: 0 <= j < |invoked| - 1 ==> calls[invoked[j]].0 == []
      ensures (result, toBroadcast) == calls[invoked[|invoked| - 1]]
      ensures result == [] ==> |invoked| == |calls|
      ensures result == [] <==> forall i :: 0 <= i < |calls| ==> calls[i].0 == []
    {
      var next := index;
      invoked := [];
      while true
        invariant |invoked| < |calls|
        invariant next == Cyclic(index, |calls|, |invoked|)
        invariant forall j :: 0 <= j < |invoked| ==> invoked[j] == Cyclic(index, |calls|, j)
        invariant forall j :: 0 <= j < |invoked| ==> calls[invoked[j]].0 == []
        decreases |calls| - |invoked|
      {
        result, toBroadcast := calls[next].0, calls[next].1;
        CyclicStep(index, |calls|, |invoked|);
        invoked := invoked + [next];
        next := (next + 1) % |calls|;
        if result != [] || index == next {
          AllTried(calls, index, invoked, result);
          return;
        }
      }
    }

    /** `call_next` as evidently intended: the loop is left with the result, and the index
        then moves just past the call that answered, so the next round starts there. */
    method CallNextRotating<T>(calls: seq<(seq<T>, bool)>) returns (result: seq<T>, toBroadcast: bool, invoked: seq<nat>)
      requires 0 < |calls| && index < |calls|
      modifies this
      ensures 0 < |invoked| <= |calls|
      ensures forall j :: 0 <= j < |invoked| ==> invoked[j] < |calls| && invoked[j] == Cyclic(old(index), |calls|, j)
      ensures forall j :: 0 <= j < |invoked| - 1 ==> calls[invoked[j]].0 == []
      ensures (result, toBroadcast) == calls[invoked[|invoked| - 1]]
      ensures result == [] <==> forall i :: 0 <= i < |calls| ==> calls[i].0 == []
      ensures index == (invoked[|invoked| - 1] + 1) % |calls|
      ensures result == [] ==> index == old(index)
    {
      result, toBroadcast, invoked := CallNext(calls);
      if result == [] {
        CyclicStep(index, |calls|, |calls| - 1);
      }
      index := (invoked[|invoked| - 1] + 1) % |calls|;
    }
  }

  /** As written, a round that finds the first call busy never reaches the second: two
      rounds over two calls that both have changes both return the first one's. */
  method StarvationAsWritten() returns (first: seq<int>, second: seq<int>)
    ensures first == [0] && second == [0]
  {
    var schedule := new RoundRobin();
    var calls := [([0], true), ([1], true)];
    var toBroadcast, invoked;
    first, toBroadcast, invoked := schedule.CallNext(calls);
    assert invoked[0] == 0;
    second, toBroadcast, invoked := schedule.CallNext(calls);
    assert invoked[0] == 0;
  }

  /** With the rotation, rounds in which every call has changes serve the calls in cyclic
      order from the stored index, so `|calls|` rounds serve every call once. */
  method FairRounds<T>(schedule: RoundRobin, calls: seq<(seq<T>, bool)>, rounds: nat) returns (served: seq<nat>)
    requires 0 < |calls| && schedule.index < |calls| && rounds <= |calls|
    requires forall i :: 0 <= i < |calls| ==> calls[i].0 != []
    modifies schedule
    ensures |served| == rounds
    ensures forall k :: 0 <= k < rounds ==> served[k] == Cyclic(old(schedule.index), |calls|, k)
    ensures rounds == |calls| ==> forall p :: 0 <= p < |calls| ==> p in served
  {
    ghost var start := schedule.index;
    served := [];
    for k := 0 to rounds
      invariant schedule.index == Cyclic(start, |calls|, k)
      invariant |served| == k
      invariant forall j :: 0 <= j < k ==> served[j] == Cyclic(start, |calls|, j)
    {
      var result, toBroadcast, invoked := schedule.CallNextRotating(calls);
      assert calls[invoked[0]].0 != [];
      served := served + [invoked[0]];
      CyclicStep(start, |calls|, k);
    }
    if rounds == |calls| {
      forall p | 0 <= p < |calls|
        ensures p in served
      {
        CyclicCoversAll(start, |calls|, p);
        var j := if start <= p then p - start else p + |calls| - start;
        assert served[j] == p;
      }
    }
  }

  /** When every call has been tried and all came back empty, every call is empty. */
  lemma AllTried<T>(calls: seq<(seq<T>, bool)>, start: nat, invoked: seq<nat>, result: seq<T>)
    requires 0 < |invoked| <= |calls| && start < |calls|
    requires forall j :: 0 <= j < |invoked| ==> invoked[j] < |calls| && invoked[j] == Cyclic(start, |calls|, j)
    requires forall j :: 0 <= j < |invoked| - 1 ==> calls[invoked[j]].0 == []
    requires result == calls[invoked[|invoked| - 1]].0
    requires result == [] ==> |invoked| == |calls|
    ensures result == [] <==> forall i :: 0 <= i < |calls| ==> calls[i].0 == []
  {
    if result == [] {
      forall p | 0 <= p < |calls|
        ensures calls[p].0 == []
      {
        CyclicCoversAll(start, |calls|, p);
      }
    }
  }

  /** `add_all_to_validated` (lines 191-196). */
  function AddAllToValidated(messages: seq<ConsensusMessage>): (r: ChangeSet)
    ensures |r| == |messages|
    ensures forall i :: 0 <= i < |messages| ==> r[i] == AddToValidated(messages[i])
  {
    seq(|messages|, i requires 0 <= i < |messages| => AddToValidated(messages[i]))
  }

  /** `add_to_validated` (lines 198-201): at most one change. */
  function AddToValidatedIfAny(msg: Option<ConsensusMessage>): (r: ChangeSet)
    ensures |r| <= 1
    ensures r == [] <==> msg.None?
    ensures msg.Some? ==> r == [AddToValidated(msg.value)]
  {
    match msg
    case Some(m) => [AddToValidated(m)]
    case None => []
  }

  /** What each subcomponent would produce this round. */
  datatype ComponentOutputs = ComponentOutputs(
    acknowledger: seq<ConsensusMessage>, finalizer: seq<ConsensusMessage>,
    aggregator: seq<ConsensusMessage>, notary: seq<ConsensusMessage>,
    blockMaker: Option<ConsensusMessage>, validator: (ChangeSet, bool),
    goodifier: seq<ConsensusMessage>)

  /** The seven calls of `on_state_change` (lines 119-183), in schedule order: acknowledge,
      finalize, aggregate, notarize, make_block, validate, goodify. */
  function Calls(params: SubnetParams, out: ComponentOutputs): (calls: seq<(ChangeSet, bool)>)
    ensures |calls| == 7
  {
    [ if params.consensusOnDemand && params.goodifier then (AddAllToValidated(out.acknowledger), true) else ([], false),
      (AddAllToValidated(out.finalizer), true),
      (AddAllToValidated(out.aggregator), true),
      (AddAllToValidated(out.notary), true),
      (AddToValidatedIfAny(out.blockMaker), true),
      out.validator,
      if params.consensusOnDemand || params.goodifier then (AddAllToValidated(out.goodifier), false) else ([], false) ]
  }

  /** The acknowledger contributes only in FICC mode with the goodifier on, and then all
      of its messages, to be broadcast. */
  lemma AcknowledgeGate(params: SubnetParams, out: ComponentOutputs)
    ensures Calls(params, out)[0].0 != [] <==> params.consensusOnDemand && params.goodifier && out.acknowledger != []
    ensures Calls(params, out)[0].0 != [] ==> Calls(params, out)[0] == (AddAllToValidated(out.acknowledger), true)
  {
  }

  /** The goodifier contributes when either flag is on, and its changes are never broadcast. */
  lemma GoodifyGate(params: SubnetParams, out: ComponentOutputs)
    ensures Calls(params, out)[6].0 != [] <==> (params.consensusOnDemand || params.goodifier) && out.goodifier != []
    ensures !Calls(params, out)[6].1
  {
  }

  /** The finalizer, aggregator, notary and block maker always contribute what they produce,
      to be broadcast. */
  lemma UngatedCalls(params: SubnetParams, out: ComponentOutputs)
    ensures Calls(params, out)[1] == (AddAllToValidated(out.finalizer), true)
    ensures Calls(params, out)[2] == (AddAllToValidated(out.aggregator), true)
    ensures Calls(params, out)[3] == (AddAllToValidated(out.notary), true)
    ensures Calls(params, out)[4] == (AddToValidatedIfAny(out.blockMaker), true)
    ensures Calls(params, out)[5] == out.validator
  {
  }

  /** With both flags off the acknowledger is switched off, so a round that starts at the
      acknowledger and finds the finalizer and the aggregator busy returns the finalizer's
      change set, to be broadcast, and the next round starts at the aggregator. */
  method FinalizerAnswersFirst(finalization: ConsensusMessage, aggregate: ConsensusMessage)
    returns (changeSet: ChangeSet, toBroadcast: bool, nextIndex: nat)
    ensures changeSet == [AddToValidated(finalization)] && toBroadcast
    ensures nextIndex == 2
  {
    var consensus := new ConsensusImpl(SubnetParams(false, false, 4, 1));
    var out := ComponentOutputs([finalization], [finalization], [aggregate], [], None, ([], false), []);
    var calls := Calls(consensus.subnetParams, out);
    var finalized := AddAllToValidated(out.finalizer);
    assert finalized == [AddToValidated(finalization)] by {
      assert |finalized| == 1 && finalized[0] == AddToValidated(finalization);
    }
    assert calls[0].0 == [] && calls[1] == (finalized, true);
    changeSet, toBroadcast := consensus.OnStateChange(out);
    ghost var p :| 0 <= p < 7
                   && (changeSet, toBroadcast) == calls[Cyclic(0, 7, p)]
                   && (forall j :: 0 <= j < p ==> calls[Cyclic(0, 7, j)].0 == [])
                   && consensus.schedule.index == (Cyclic(0, 7, p) + 1) % 7;
    assert Cyclic(0, 7, 1) == 1;
    assert p == 1;
    nextIndex := consensus.schedule.index;
  }

  /** `ConsensusImpl`, reduced to what `on_state_change` reads: the flags and the schedule. */
  class ConsensusImpl {
    const subnetParams: SubnetParams
    const schedule: RoundRobin

    constructor(subnetParams: SubnetParams)
      ensures this.subnetParams == subnetParams
      ensures fresh(schedule) && schedule.index == 0
    {
      this.subnetParams := subnetParams;
      schedule := new RoundRobin();
    }

    /** `on_state_change` (lines 92-188), over the rotating schedule: the first non-empty
        change set in cyclic order from the stored index, or an empty one when no
        subcomponent has anything to do; the index then moves past the call that answered. */
    method OnStateChange(out: ComponentOutputs) returns (changeSet: ChangeSet, toBroadcast: bool)
      requires schedule.index < 7
      modifies schedule
      ensures schedule.index < 7
      ensures changeSet != [] ==> (changeSet, toBroadcast) in Calls(subnetParams, out)
      ensures changeSet == [] <==> forall i :: 0 <= i < 7 ==> Calls(subnetParams, out)[i].0 == []
      ensures exists p :: 0 <= p < 7
                && (changeSet, toBroadcast) == Calls(subnetParams, out)[Cyclic(old(schedule.index), 7, p)]
                && (forall j :: 0 <= j < p ==> Calls(subnetParams, out)[Cyclic(old(schedule.index), 7, j)].0 == [])
                && schedule.index == (Cyclic(old(schedule.index), 7, p) + 1) % 7
      ensures changeSet == [] ==> schedule.index == old(schedule.index)
      ensures old(schedule.index) == 0 && Calls(subnetParams, out)[0].0 != [] ==>
                (changeSet, toBroadcast) == Calls(subnetParams, out)[0]
    {
      var calls := Calls(subnetParams, out);
      var invoked;
      changeSet, toBroadcast, invoked := schedule.CallNextRotating(calls);
      var p := |invoked| - 1;
      assert invoked[p] == Cyclic(old(schedule.index), 7, p);
      if changeSet != [] {
        assert calls[invoked[p]] in calls;
      }
      if old(schedule.index) == 0 && calls[0].0 != [] {
        assert invoked[0] == 0;
      }
    }
  }
}
