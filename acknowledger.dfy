/**
 * The acknowledger of the FICC fast path (acknowledger.rs): every group of notarization
 * shares at the next height that acknowledges its block and is signed by at least
 * `n - f` replicas yields a full notarization and a full finalization of that block.
 */
module Acknowledgement {
  import opened Wrappers
  import opened Messages
  import opened Scheduling

  /** One entry of the grouping `aggregate` returns: a share content and its signers. */
  datatype ShareGroup = ShareGroup(content: ShareContent, committee: seq<u8>)

  /** The pool reads the acknowledger makes. */
  datatype AckPoolView = AckPoolView(notarizedHeight: u64, notarizationShares: u64 -> seq<NotarizationShare>)

  /** A group is acted on when it is an acknowledgement with a committee of at least
      `total_nodes_number - faulty_nodes_number` signers. */
  predicate Qualifies(params: SubnetParams, group: ShareGroup) {
    group.content.isAck && |group.committee| >= params.totalNodesNumber - params.faultyNodesNumber
  }

  /** The qualifying groups, in input order (the filter of lines 37-43). */
  function QualifyingGroups(params: SubnetParams, groups: seq<ShareGroup>): (r: seq<ShareGroup>)
    ensures |r| <= |groups|
    ensures forall g :: g in r <==> g in groups && Qualifies(params, g)
  {
    if groups == [] then []
    else if Qualifies(params, groups[0]) then [groups[0]] + QualifyingGroups(params, groups[1..])
    else QualifyingGroups(params, groups[1..])
  }

  /** The two messages one qualifying group yields (lines 44-65). */
  function Acknowledge(content: ShareContent): seq<ConsensusMessage> {
    [ NotarizationMessage(Notarization(HeightBlock(content.height, content.block), 0)),
      FinalizationMessage(Finalization(HeightBlock(content.height, content.block), 10)) ]
  }

  /** The flattened messages of every group (lines 37-66). */
  function AckMessages(params: SubnetParams, groups: seq<ShareGroup>): (r: seq<ConsensusMessage>)
    ensures |r| == 2 * |QualifyingGroups(params, groups)|
  {
    if groups == [] then []
    else if Qualifies(params, groups[0]) then Acknowledge(groups[0].content) + AckMessages(params, groups[1..])
    else AckMessages(params, groups[1..])
  }

  /** `on_state_change` (lines 32-67), with the grouping `aggregate` as a parameter;
      `get_notarized_height() + 1` is computed on `u64`. */
  function OnStateChange(params: SubnetParams, pool: AckPoolView,
                         aggregate: seq<NotarizationShare> -> seq<ShareGroup>): (r: seq<ConsensusMessage>)
    requires pool.notarizedHeight as int < U64_MAX
    ensures var q := QualifyingGroups(params, aggregate(pool.notarizationShares(pool.notarizedHeight + 1)));
            && |r| == 2 * |q|
            && forall k :: 0 <= k < |q| ==>
                 && r[2 * k] == NotarizationMessage(Notarization(HeightBlock(q[k].content.height, q[k].content.block), 0))
                 && r[2 * k + 1] == FinalizationMessage(Finalization(HeightBlock(q[k].content.height, q[k].content.block), 10))
  {
    var groups := aggregate(pool.notarizationShares(pool.notarizedHeight + 1));
    assert forall k :: 0 <= k < |QualifyingGroups(params, groups)| ==>
             var g := QualifyingGroups(params, groups)[k];
             var r := AckMessages(params, groups);
             && r[2 * k] == NotarizationMessage(Notarization(HeightBlock(g.content.height, g.content.block), 0))
             && r[2 * k + 1] == FinalizationMessage(Finalization(HeightBlock(g.content.height, g.content.block), 10))
    by {
      forall k | 0 <= k < |QualifyingGroups(params, groups)| {
        AckPairs(params, groups, k);
      }
    }
    AckMessages(params, groups)
  }

  // ----- properties of the acknowledgements -----

  /** Message `2k` notarizes and message `2k + 1` finalizes the block of the `k`-th
      qualifying group, at its height, with the committee signatures 0 and 10. */
  lemma {:induction false} AckPairs(params: SubnetParams, groups: seq<ShareGroup>, k: nat)
    requires k < |QualifyingGroups(params, groups)|
    ensures var g := QualifyingGroups(params, groups)[k];
            var r := AckMessages(params, groups);
            && r[2 * k] == NotarizationMessage(Notarization(HeightBlock(g.content.height, g.content.block), 0))
            && r[2 * k + 1] == FinalizationMessage(Finalization(HeightBlock(g.content.height, g.content.block), 10))
  {
    var rest := groups[1..];
    var r := AckMessages(params, groups);
    var tail := AckMessages(params, rest);
    var q := QualifyingGroups(params, groups);
    var qTail := QualifyingGroups(params, rest);
    if Qualifies(params, groups[0]) {
      assert r == Acknowledge(groups[0].content) + tail;
      assert q == [groups[0]] + qTail;
      if k > 0 {
        AckPairs(params, rest, k - 1);
        assert q[k] == qTail[k - 1];
        assert r[2 * k] == tail[2 * k - 2] && r[2 * k + 1] == tail[2 * k - 1];
      }
    } else {
      assert r == tail && q == qTail;
      AckPairs(params, rest, k);
    }
  }

  /** The messages of two batches of groups are the two batches' messages, in order. */
  lemma {:induction false} AckMessagesConcatenate(params: SubnetParams, a: seq<ShareGroup>, b: seq<ShareGroup>)
    ensures AckMessages(params, a + b) == AckMessages(params, a) + AckMessages(params, b)
    decreases |a|
  {
    if a == [] {
      assert a + b == b;
    } else {
      assert (a + b)[0] == a[0];
      assert (a + b)[1..] == a[1..] + b;
      AckMessagesConcatenate(params, a[1..], b);
      if Qualifies(params, a[0]) {
        var first := Acknowledge(a[0].content);
        AppendAssociates(first, AckMessages(params, a[1..]), AckMessages(params, b));
      }
    }
  }

  /** The qualifying groups of two batches are the two batches' qualifying groups, in order. */
  lemma {:induction false} QualifyingConcatenate(params: SubnetParams, a: seq<ShareGroup>, b: seq<ShareGroup>)
    ensures QualifyingGroups(params, a + b) == QualifyingGroups(params, a) + QualifyingGroups(params, b)
    decreases |a|
  {
    if a == [] {
      assert a + b == b;
    } else {
      assert (a + b)[0] == a[0];
      assert (a + b)[1..] == a[1..] + b;
      QualifyingConcatenate(params, a[1..], b);
      if Qualifies(params, a[0]) {
        AppendAssociates([a[0]], QualifyingGroups(params, a[1..]), QualifyingGroups(params, b));
      }
    }
  }

  /** A group that does not qualify contributes nothing, wherever it sits. */
  lemma NonQualifyingIgnored(params: SubnetParams, a: seq<ShareGroup>, g: ShareGroup, b: seq<ShareGroup>)
    requires !Qualifies(params, g)
    ensures AckMessages(params, a + [g] + b) == AckMessages(params, a + b)
  {
    AckMessagesConcatenate(params, a + [g], b);
    AckMessagesConcatenate(params, a, [g]);
    AckMessagesConcatenate(params, a, b);
    assert [g][1..] == [];
  }

  /** Only the notarized height and the shares one above it matter. */
  lemma OnlyNextHeightMatters(params: SubnetParams, pool: AckPoolView, other: AckPoolView,
                              aggregate: seq<NotarizationShare> -> seq<ShareGroup>)
    requires pool.notarizedHeight as int < U64_MAX
    requires other.notarizedHeight == pool.notarizedHeight
    requires other.notarizationShares(pool.notarizedHeight + 1) == pool.notarizationShares(pool.notarizedHeight + 1)
    ensures OnStateChange(params, other, aggregate) == OnStateChange(params, pool, aggregate)
  {
  }

  /** Every message is a notarization signed 0 or a finalization signed 10 of some
      qualifying group's height and block. */
  lemma AckMessagesSound(params: SubnetParams, groups: seq<ShareGroup>, i: nat)
    requires i < |AckMessages(params, groups)|
    ensures var m := AckMessages(params, groups)[i];
            exists g :: g in groups && Qualifies(params, g) &&
              (m == NotarizationMessage(Notarization(HeightBlock(g.content.height, g.content.block), 0)) ||
               m == FinalizationMessage(Finalization(HeightBlock(g.content.height, g.content.block), 10)))
  {
    var k := i / 2;
    assert i == 2 * k || i == 2 * k + 1;
    AckPairs(params, groups, k);
    var g := QualifyingGroups(params, groups)[k];
    assert g in QualifyingGroups(params, groups);
  }
}
