/** Byte strings, optional values and the error values shared by the sequencer modules. */
module Common {
  newtype Byte = b: int | 0 <= b < 256

  type Bytes = seq<Byte>

  datatype Option<+T> = None | Some(value: T)

  datatype Error =
    | MissingSignature
    | InvalidSignature
    | InvalidSigner
    | PrevHashMismatch
    | EmptyBody
    | Malformed
    | Expired
    | UnknownExpiryCondition
    | WriteFailed
    | ReplicaMode
    | Undecodable
}

/**
 The protobuf messages of the sequencer, their signature hashes and the cryptographic library
 they use. The library is a record of functions: every theorem holds for all of them, and
 a theorem that needs an assumption about keccak or ECDSA says so in its requires.
 */
module Messages {
  import opened Common

  /** An expiry condition; `Unset` is a oneof for which GetUnix() returns nil. */
  datatype ExpiryCondition = Unix(time: nat) | Unset

  /** `None` in a signature is Go's nil slice. */
  datatype SequenceTx = SequenceTx(
    from: Bytes,
    to: Bytes,
    data: Bytes,
    sig: Option<Bytes>,
    nonce: Bytes,
    stateReads: Bytes,
    stateWrites: Bytes,
    expires: seq<ExpiryCondition>)

  datatype Block = Block(
    prevBlockHash: Bytes,
    body: Option<SequenceTx>,
    sig: Option<Bytes>,
    height: int)

  /** Length of an Ethereum signature [R || S || V]. */
  const SIGNATURE_LENGTH := 65

  /**
   The functions of the cryptographic library. The digests take the message as it is marshalled:
   `keccakBlock(b)` stands for Keccak256(proto.Marshal(b)). `sign` is the key held by a node
   started with an operator private key.
   */
  datatype Library = Library(
    keccakBlock: Block -> Bytes,
    keccakTx: SequenceTx -> Bytes,
    ecrecover: (Bytes, Bytes) -> Option<Bytes>,
    verifySignature: (Bytes, Bytes, Bytes) -> bool,
    decompressPubkey: Bytes -> Option<Bytes>,
    sign: Bytes -> Bytes,
    operatorPubkey: Bytes)

  /** Public key recovery reports an error on any signature that does not have 65 bytes. */
  ghost predicate RecoversOnlyFullSignatures(c: Library) {
    forall digest, sig :: |sig| != SIGNATURE_LENGTH ==> c.ecrecover(digest, sig).None?
  }

  type Crypto = c: Library | RecoversOnlyFullSignatures(c)
    witness Library(b => [], t => [], (d, s) => None, (p, d, s) => false, p => None, d => [], [])

  /** Marshalling omits an empty bytes field, so nil and empty are the same on the wire. */
  function WireBytes(sig: Option<Bytes>): Option<Bytes> {
    if sig.None? then Some([]) else sig
  }

  function WireTx(msg: SequenceTx): SequenceTx {
    msg.(sig := WireBytes(msg.sig))
  }

  function Wire(block: Block): Block {
    block.(sig := WireBytes(block.sig),
           body := if block.body.None? then None else Some(WireTx(block.body.value)))
  }

  /** What a block's signature covers: all its marshalled content except `Block.Sig`. */
  function Content(block: Block): Block {
    Wire(block.(sig := Some([])))
  }

  function SigHash(c: Crypto, block: Block): Bytes {
    c.keccakBlock(Content(block))
  }

  function TxSigHash(c: Crypto, msg: SequenceTx): Bytes {
    c.keccakTx(WireTx(msg.(sig := Some([]))))
  }

  function ConstructBlock(msg: SequenceTx): Block {
    Block([], Some(msg), Some([]), 0)
  }

  function Signed(c: Crypto, block: Block): Block {
    block.(sig := Some(c.sign(SigHash(c, block))))
  }

  /** No two different contents have the same hash. */
  ghost predicate CollisionFree(c: Crypto) {
    forall a, b :: SigHash(c, a) == SigHash(c, b) ==> Content(a) == Content(b)
  }

  /** The signer's signatures recover to, and verify under, the operator key replicas expect. */
  ghost predicate SignerIsOperator(c: Crypto) {
    forall digest ::
      var sig := c.sign(digest);
      && c.ecrecover(digest, sig) == Some(c.operatorPubkey)
      && c.verifySignature(c.operatorPubkey, digest, WithoutRecoveryId(sig))
  }

  function WithoutRecoveryId(sig: Bytes): Bytes {
    if |sig| == 0 then [] else sig[..|sig| - 1]
  }

  /** The signature recovers to the key, and verifies under it once the recovery id is removed. */
  predicate SignedBy(c: Crypto, key: Bytes, digest: Bytes, sig: Option<Bytes>) {
    && sig.Some?
    && c.ecrecover(digest, sig.value) == Some(key)
    && c.verifySignature(key, digest, WithoutRecoveryId(sig.value))
  }

  /** What the digest of a message covers: every field, with the signature blanked. */
  lemma MessageDigest(c: Crypto, m: SequenceTx)
    ensures TxSigHash(c, m) ==
            c.keccakTx(SequenceTx(m.from, m.to, m.data, Some([]), m.nonce, m.stateReads, m.stateWrites, m.expires))
  {
  }

  /** What the digest of a block covers: every field with the signature blanked, the body's own signature included. */
  lemma BlockDigest(c: Crypto, b: Block)
    ensures b.body.None? ==> SigHash(c, b) == c.keccakBlock(Block(b.prevBlockHash, None, Some([]), b.height))
    ensures b.body.Some? ==>
              var m := b.body.value;
              var sig := if m.sig.None? then [] else m.sig.value;
              SigHash(c, b) == c.keccakBlock(Block(
                b.prevBlockHash,
                Some(SequenceTx(m.from, m.to, m.data, Some(sig), m.nonce, m.stateReads, m.stateWrites, m.expires)),
                Some([]),
                b.height))
  {
  }

  /** Two different contents with the same hash. */
  ghost predicate Collide(c: Crypto, a: Block, b: Block) {
    Content(a) != Content(b) && SigHash(c, a) == SigHash(c, b)
  }

  /** Signing leaves the signed digest unchanged, so a verifier recomputes the digest that was signed. */
  lemma SigningKeepsSigHash(c: Crypto, block: Block)
    ensures Content(Signed(c, block)) == Content(block)
    ensures SigHash(c, Signed(c, block)) == SigHash(c, block)
  {
  }
}
