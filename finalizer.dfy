/**
 * The finalizer (finalizer.rs): for every height between the finalized and the notarized
 * height it decides whether this replica may finality-sign the height's notarized block,
 * and it records the highest finalized height it has seen.
 */
module Finalization {
  import opened Wrappers
  import opened Messages

  /** The pool reads the finalizer makes (`PoolReader`), and the goodness rule of FICC
      (`block_is_good`); none of them is defined in the files modelled here. */
  datatype PoolView = PoolView(
    notarizedHeight: u64,
    finalizedHeight: u64,
    finalizationShares: u64 -> seq<FinalizationShare>,   // get_finalization_shares(h, h)
    notarizedBlocks: u64 -> seq<Block>,
    notarizationShares: u64 -> seq<NotarizationShare>,
    blockIsGood: Block -> bool)

  /** The signature this replica puts on finalization shares, `10 + node_id`; on `u8` it
      overflows for node ids above 245. */
  function FinalizationSignature(nodeId: u8): u8
    requires nodeId <= 245
  {
    10 + nodeId
  }

  /** This replica already has a finalization share at `h` in the pool. */
  predicate AlreadySigned(nodeId: u8, pool: PoolView, h: u64)
    requires nodeId <= 245
  {
    var shares := pool.finalizationShares(h);
    exists i :: 0 <= i < |shares| && shares[i].signature == FinalizationSignature(nodeId)
  }

  /** This replica has a notarization share at `h`, of either variant, for another block. */
  predicate VotedForOther(nodeId: u8, pool: PoolView, hash: Block -> CryptoHash, h: u64, b: Block) {
    var shares := pool.notarizationShares(h);
    exists i :: 0 <= i < |shares| && shares[i].signature == nodeId && shares[i].content.Block() != hash(b)
  }

  /** The pick does not reach its panic: the replica has signed `h` already, or some
      block is notarized at `h`. */
  predicate NoPanicAt(nodeId: u8, pool: PoolView, h: u64)
    requires nodeId <= 245
  {
    AlreadySigned(nodeId, pool, h) || |pool.notarizedBlocks(h)| > 0
  }

  /** `pick_block_to_finality_sign` (lines 97-155). */
  function PickBlockToFinalitySign(nodeId: u8, consensusOnDemand: bool, pool: PoolView,
                                   hash: Block -> CryptoHash, h: u64): (r: Option<Block>)
    requires nodeId <= 245
    requires NoPanicAt(nodeId, pool, h)
    ensures r.Some? <==>
              && !AlreadySigned(nodeId, pool, h)
              && |pool.notarizedBlocks(h)| == 1
              && (consensusOnDemand ==> pool.blockIsGood(pool.notarizedBlocks(h)[0]))
              && !VotedForOther(nodeId, pool, hash, h, pool.notarizedBlocks(h)[0])
    ensures r.Some? ==> r.value == pool.notarizedBlocks(h)[0]
  {
    if AlreadySigned(nodeId, pool, h) then None
    else
      var notarizedBlocks := pool.notarizedBlocks(h);
      if |notarizedBlocks| != 1 then None
      else
        var notarizedBlock := notarizedBlocks[0];
        if consensusOnDemand && !pool.blockIsGood(notarizedBlock) then None
        else if VotedForOther(nodeId, pool, hash, h, notarizedBlock) then None
        else Some(notarizedBlock)
  }

  /** `finalize_height` (lines 76-86): a share for `(h, hash(block))`, signed `10 + node_id`. */
  function FinalizeHeight(nodeId: u8, consensusOnDemand: bool, pool: PoolView,
                          hash: Block -> CryptoHash, h: u64): (r: Option<FinalizationShare>)
    requires nodeId <= 245
    requires NoPanicAt(nodeId, pool, h)
    ensures r.Some? <==> PickBlockToFinalitySign(nodeId, consensusOnDemand, pool, hash, h).Some?
    ensures r.Some? ==>
              && r.value.content.height == h
              && r.value.content.block == hash(pool.notarizedBlocks(h)[0])
              && r.value.signature as int == 10 + nodeId as int
  {
    match PickBlockToFinalitySign(nodeId, consensusOnDemand, pool, hash, h)
    case Some(block) => Some(FinalizationShare(FinalizationShareContent(h, hash(block)), FinalizationSignature(nodeId)))
    case None => None
  }

  /** No height of `lo..=hi` reaches the panic. */
  predicate Finalizable(nodeId: u8, pool: PoolView, lo: int, hi: int)
    requires nodeId <= 245
  {
    forall h: u64 :: lo <= h as int <= hi ==> NoPanicAt(nodeId, pool, h)
  }

  /** The shares of the heights `lo..=hi`, in increasing height (the `filter_map` of
      lines 62-71). */
  function SharesFrom(nodeId: u8, consensusOnDemand: bool, pool: PoolView,
                      hash: Block -> CryptoHash, lo: int, hi: int): (r: seq<ConsensusMessage>)
    requires nodeId <= 245
    requires 0 <= lo && hi <= U64_MAX
    requires Finalizable(nodeId, pool, lo, hi)
    ensures |r| <= if lo > hi then 0 else hi - lo + 1
    ensures forall m :: m in r ==> m.FinalizationShareMessage? && lo <= m.share.content.height as int <= hi
    decreases hi - lo
  {
    if lo > hi then []
    else
      var rest := SharesFrom(nodeId, consensusOnDemand, pool, hash, lo + 1, hi);
      match FinalizeHeight(nodeId, consensusOnDemand, pool, hash, lo as u64)
      case Some(f) => [FinalizationShareMessage(f)] + rest
      case None => rest
  }

  // ----- properties of the finalization shares -----

  /** Every share produced is the one `finalize_height` makes for its own height. */
  lemma {:induction false} SharesSound(nodeId: u8, consensusOnDemand: bool, pool: PoolView,
                                       hash: Block -> CryptoHash, lo: int, hi: int, k: nat)
    requires nodeId <= 245
    requires 0 <= lo && hi <= U64_MAX
    requires Finalizable(nodeId, pool, lo, hi)
    requires k < |SharesFrom(nodeId, consensusOnDemand, pool, hash, lo, hi)|
    ensures var m := SharesFrom(nodeId, consensusOnDemand, pool, hash, lo, hi)[k];
            && m.FinalizationShareMessage?
            && lo <= m.share.content.height as int <= hi
            && FinalizeHeight(nodeId, consensusOnDemand, pool, hash, m.share.content.height) == Some(m.share)
    decreases hi - lo
  {
    var r := SharesFrom(nodeId, consensusOnDemand, pool, hash, lo, hi);
    var rest := SharesFrom(nodeId, consensusOnDemand, pool, hash, lo + 1, hi);
    var own := FinalizeHeight(nodeId, consensusOnDemand, pool, hash, lo as u64);
    assert r[k] in r;
    if own.Some? && k == 0 {
      assert r[0] == FinalizationShareMessage(own.value);
    } else {
      var k' := if own.Some? then k - 1 else k;
      assert r[k] == rest[k'];
      SharesSound(nodeId, consensusOnDemand, pool, hash, lo + 1, hi, k');
    }
  }

  /** Every height of the range that `finalize_height` can sign gets its share. */
  lemma {:induction false} SharesComplete(nodeId: u8, consensusOnDemand: bool, pool: PoolView,
                                          hash: Block -> CryptoHash, lo: int, hi: int, h: u64)
    requires nodeId <= 245
    requires 0 <= lo && hi <= U64_MAX
    requires Finalizable(nodeId, pool, lo, hi)
    requires lo <= h as int <= hi
    requires FinalizeHeight(nodeId, consensusOnDemand, pool, hash, h).Some?
    ensures FinalizationShareMessage(FinalizeHeight(nodeId, consensusOnDemand, pool, hash, h).value)
            in SharesFrom(nodeId, consensusOnDemand, pool, hash, lo, hi)
    decreases hi - lo
  {
    if h as int > lo {
      SharesComplete(nodeId, consensusOnDemand, pool, hash, lo + 1, hi, h);
    }
  }

  /** The shares come in strictly increasing height, so there is at most one per height. */
  lemma {:induction false} SharesIncreasing(nodeId: u8, consensusOnDemand: bool, pool: PoolView,
                                            hash: Block -> CryptoHash, lo: int, hi: int, j: nat, k: nat)
    requires nodeId <= 245
    requires 0 <= lo && hi <= U64_MAX
    requires Finalizable(nodeId, pool, lo, hi)
    requires j < k < |SharesFrom(nodeId, consensusOnDemand, pool, hash, lo, hi)|
    ensures SharesFrom(nodeId, consensusOnDemand, pool, hash, lo, hi)[j].share.content.height
            < SharesFrom(nodeId, consensusOnDemand, pool, hash, lo, hi)[k].share.content.height
    decreases hi - lo
  {
    var r := SharesFrom(nodeId, consensusOnDemand, pool, hash, lo, hi);
    var rest := SharesFrom(nodeId, consensusOnDemand, pool, hash, lo + 1, hi);
    var own := FinalizeHeight(nodeId, consensusOnDemand, pool, hash, lo as u64);
    if own.Some? {
      assert r[k] == rest[k - 1];
      assert rest[k - 1] in rest;
      if j > 0 {
        assert r[j] == rest[j - 1];
        SharesIncreasing(nodeId, consensusOnDemand, pool, hash, lo + 1, hi, j - 1, k - 1);
      } else {
        assert r[j] == FinalizationShareMessage(own.value);
      }
    } else {
      assert r[j] == rest[j] && r[k] == rest[k];
      SharesIncreasing(nodeId, consensusOnDemand, pool, hash, lo + 1, hi, j, k);
    }
  }

  /** A share names the only notarized block at its height, and, when block hashes do not
      collide, every notarization share this replica made at that height is for that block. */
  lemma ShareNamesNotarizedBlock(nodeId: u8, consensusOnDemand: bool, pool: PoolView,
                                 hash: Block -> CryptoHash, h: u64, c: Block, i: nat)
    requires nodeId <= 245
    requires NoPanicAt(nodeId, pool, h)
    requires FinalizeHeight(nodeId, consensusOnDemand, pool, hash, h).Some?
    requires forall b1, b2 :: hash(b1) == hash(b2) ==> b1 == b2
    requires i < |pool.notarizationShares(h)| && pool.notarizationShares(h)[i].signature == nodeId
    requires hash(c) == pool.notarizationShares(h)[i].content.Block()
    ensures pool.notarizedBlocks(h) == [c]
  {
    var b := pool.notarizedBlocks(h)[0];
    assert !VotedForOther(nodeId, pool, hash, h, b);
    assert pool.notarizedBlocks(h) == [b];
  }

  /** `Finalizer`: the replica's id, the protocol flag, and the highest finalized height seen. */
  class Finalizer {
    const nodeId: u8
    const consensusOnDemand: bool
    var prevFinalizedHeight: u64

    /** `Finalizer::new` (lines 39-45). */
    constructor(nodeId: u8, consensusOnDemand: bool)
      ensures this.nodeId == nodeId && this.consensusOnDemand == consensusOnDemand
      ensures prevFinalizedHeight == 0
    {
      this.nodeId := nodeId;
      this.consensusOnDemand := consensusOnDemand;
      prevFinalizedHeight := 0;
    }

    /** `on_state_change` (lines 50-72). `finalized_height + 1` is computed on `u64`. */
    method OnStateChange(pool: PoolView, hash: Block -> CryptoHash) returns (messages: seq<ConsensusMessage>)
      requires nodeId <= 245
      requires pool.finalizedHeight as int < U64_MAX
      requires Finalizable(nodeId, pool, pool.finalizedHeight as int + 1, pool.notarizedHeight as int)
      modifies this
      ensures prevFinalizedHeight == if old(prevFinalizedHeight) < pool.finalizedHeight then pool.finalizedHeight
                                     else old(prevFinalizedHeight)
      ensures old(prevFinalizedHeight) <= prevFinalizedHeight
      ensures messages == SharesFrom(nodeId, consensusOnDemand, pool, hash,
                                     pool.finalizedHeight as int + 1, pool.notarizedHeight as int)
    {
      var notarizedHeight := pool.notarizedHeight;
      var finalizedHeight := pool.finalizedHeight;
      if prevFinalizedHeight < finalizedHeight {
        prevFinalizedHeight := finalizedHeight;
      }
      messages := SharesFrom(nodeId, consensusOnDemand, pool, hash, finalizedHeight as int + 1, notarizedHeight as int);
    }
  }

  /** Nothing is signed when the notarized height does not exceed the finalized one. */
  lemma NothingBeyondNotarized(nodeId: u8, consensusOnDemand: bool, pool: PoolView, hash: Block -> CryptoHash)
    requires nodeId <= 245
    requires pool.notarizedHeight <= pool.finalizedHeight
    requires pool.finalizedHeight as int < U64_MAX
    ensures SharesFrom(nodeId, consensusOnDemand, pool, hash,
                       pool.finalizedHeight as int + 1, pool.notarizedHeight as int) == []
  {
  }
}
