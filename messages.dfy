/**
 * The fixed-width integers and the consensus message shapes that the finalizer, the
 * acknowledger and the scheduler exchange (crypto.rs, finalizer.rs, acknowledger.rs,
 * artifacts.rs). Content the components only pass along is kept opaque.
 */
module Messages {

  /** Rust's `u8`, used for node ids and signatures. */
  newtype u8 = x: int | 0 <= x < 0x100

  /** Rust's `u64`, used for heights. */
  newtype u64 = x: int | 0 <= x < 0x1_0000_0000_0000_0000

  const U64_MAX: int := 0xFFFF_FFFF_FFFF_FFFF

  /** A hex-encoded SHA-256 digest (`CryptoHash`). */
  type CryptoHash = string

  /** A block as it appears in the pool (artifacts.rs, lines 59-68). */
  datatype Block = Block(height: u64, fromRank: u64, fromNodeNumber: u8, hash: string,
                         parentHash: string, timestamp: int, payload: string)

  /** The content of a finalization share: a height and the hash of the block. */
  datatype FinalizationShareContent = FinalizationShareContent(height: u64, block: CryptoHash)

  /** `Signed<FinalizationShareContent, u8>`. */
  datatype FinalizationShare = FinalizationShare(content: FinalizationShareContent, signature: u8)

  /** What a notarization share signs; both protocol variants name the block by its hash. */
  datatype ShareContent = ShareContent(height: u64, block: CryptoHash, isAck: bool)

  /** `NotarizationShareContent`: the FICC (`COD`) and the plain IC (`ICC`) variant. */
  datatype NotarizationShareContent = COD(cod: ShareContent) | ICC(icc: ShareContent) {
    function Block(): CryptoHash {
      match this
      case COD(c) => c.block
      case ICC(c) => c.block
    }
  }

  /** `Signed<NotarizationShareContent, u8>`. */
  datatype NotarizationShare = NotarizationShare(content: NotarizationShareContent, signature: u8)

  /** The content shared by full notarizations and finalizations. */
  datatype HeightBlock = HeightBlock(height: u64, block: CryptoHash)

  datatype Notarization = Notarization(content: HeightBlock, signature: u8)

  datatype Finalization = Finalization(content: HeightBlock, signature: u8)

  /** The variants of `ConsensusMessage` the modelled components produce. */
  datatype ConsensusMessage =
    | FinalizationShareMessage(share: FinalizationShare)
    | NotarizationMessage(notarization: Notarization)
    | FinalizationMessage(finalization: Finalization)

  /** A pool change, over the message type of the file that uses it (`ChangeAction`). */
  datatype ChangeAction<M> = AddToValidated(added: M) | MoveToValidated(moved: M)
}
