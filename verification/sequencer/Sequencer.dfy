/**
 The sequencer node with its fields updated in place. Every method is proved to leave exactly the state
 and return exactly the error that the functions of module Core give, so all that is proved about their
 runs is about this class.
 */
module Sequencer {
  import opened Common
  import opened Messages
  import opened Core
  import opened Chain
  import opened Acceptance

  class SequencerCore {
    const crypto: Crypto
    const hasSigner: bool
    const commits: nat -> bool

    var lastBlock: Block
    var unprocessedBlockAtHeight: map<int, Block>
    var totalSeen: nat
    var sequence: seq<SequenceTx>
    var blocks: seq<BlockRow>
    var attempts: nat
    var announced: seq<Block>

    // All values lastBlock has had, genesis first.
    ghost var chain: seq<Block>

    ghost function State(): Node
      reads this
    {
      Node(hasSigner, lastBlock, unprocessedBlockAtHeight, totalSeen,
           Db(sequence, blocks, attempts, commits), chain, announced)
    }

    ghost predicate Valid()
      reads this
    {
      Wf(crypto, State())
    }

    constructor (crypto: Crypto, hasSigner: bool, commits: nat -> bool)
      ensures Valid() && State() == Init(hasSigner, commits) && this.crypto == crypto
    {
      this.crypto, this.hasSigner, this.commits := crypto, hasSigner, commits;
      lastBlock, unprocessedBlockAtHeight, totalSeen := GENESIS, map[], 0;
      sequence, blocks, attempts, announced := [], [], 0, [];
      chain := [GENESIS];
      new;
      InitWf(crypto, hasSigner, commits);
    }

    /** One transaction over both tables. The tip moves only after the commit. */
    method Commit(block: Block) returns (err: Option<Error>)
      requires block.body.Some?
      modifies this`sequence, this`blocks, this`attempts, this`lastBlock, this`chain
      ensures Outcome(State(), err) == Core.Commit(crypto, old(State()), block)
    {
      var committed := commits(attempts);
      attempts := attempts + 1;
      if !committed {
        return Some(WriteFailed);
      }
      sequence := sequence + [block.body.value];
      blocks := blocks + [BlockRow(block, SigHash(crypto, block))];
      lastBlock := block;
      chain := chain + [block];
      return None;
    }

    method DoProcessBlock(block: Block) returns (err: Option<Error>)
      modifies this
      ensures Outcome(State(), err) == Core.DoProcessBlock(crypto, old(State()), block)
      ensures old(Valid()) ==> Valid()
      ensures !SignedByOperator(crypto, block) ==> err.Some? && State() == old(State())
    {
      if !SignedByOperator(crypto, block) {
        UnsignedBlockIsRejected(crypto, State(), block);
      }
      if old(Valid()) {
        ProcessKeepsWf(crypto, State(), block);
      }
      // 1. Verify block.
      if block.sig.None? {
        return Some(MissingSignature);
      }
      var digest := SigHash(crypto, block);
      var pubkey := crypto.ecrecover(digest, block.sig.value);
      if pubkey.None? {
        return Some(InvalidSignature);
      }
      if pubkey.value != crypto.operatorPubkey {
        return Some(InvalidSigner);
      }
      var signatureValid := crypto.verifySignature(pubkey.value, digest, block.sig.value[..|block.sig.value| - 1]);
      if !signatureValid {
        return Some(InvalidSignature);
      }
      // 2. Verify block body.
      if block.height <= lastBlock.height {
        return None;
      }
      totalSeen := totalSeen + 1;
      if lastBlock.height + 1 < block.height {
        unprocessedBlockAtHeight := unprocessedBlockAtHeight[block.height := block];
        return None;
      }
      if block.prevBlockHash != SigHash(crypto, lastBlock) {
        return Some(PrevHashMismatch);
      }
      if block.body.None? {
        return Some(EmptyBody);
      }
      err := VerifySequenceMessage(block.body.value, false, 0);
      if err.Some? {
        return;
      }
      // 3. Update sequencer state.
      err := Commit(block);
    }

    /** One pass of the drain loop: process the buffered child of the tip, and delete its entry on success. */
    method ProcessChild() returns (err: Option<Error>)
      requires lastBlock.height + 1 in unprocessedBlockAtHeight
      modifies this
      ensures err == Pass(crypto, old(State())).error
      ensures State() == if err.Some? then Pass(crypto, old(State())).node else WithoutTip(Pass(crypto, old(State())).node)
    {
      err := DoProcessBlock(unprocessedBlockAtHeight[lastBlock.height + 1]);
      if err.Some? {
        return;
      }
      unprocessedBlockAtHeight := unprocessedBlockAtHeight - {lastBlock.height};
    }

    /** The drain loop. It terminates whoever signed the buffered blocks, as each sits at its own height. */
    method CheckOutOfOrderBlocks() returns (err: Option<Error>)
      requires KeysMatch(State())
      modifies this
      ensures Outcome(State(), err) == Drain(crypto, old(State()))
    {
      err := None;
      ghost var outcome := Drain(crypto, State());
      while true
        invariant KeysMatch(State())
        invariant err.None?
        invariant Drain(crypto, State()) == outcome
        decreases |unprocessedBlockAtHeight|
      {
        if lastBlock.height + 1 !in unprocessedBlockAtHeight {
          break;
        }
        ghost var before := State();
        err := ProcessChild();
        if err.Some? {
          return;
        }
        DrainGoesOn(crypto, before);
      }
    }

    method VerifySequenceMessage(msg: SequenceTx, checkUnixExpiry: bool, now: nat) returns (err: Option<Error>)
      ensures err == Core.VerifySequenceMessage(crypto, msg, checkUnixExpiry, now)
      ensures err.None? <==> Acceptable(crypto, msg, checkUnixExpiry, now)
    {
      AcceptedExactly(crypto, msg, checkUnixExpiry, now);
      if |msg.data| == 0 || msg.sig.None? {
        return Some(Malformed);
      }
      if |msg.from| == 0 {
        return Some(Malformed);
      }
      var digest := TxSigHash(crypto, msg);
      var pubkey := crypto.ecrecover(digest, msg.sig.value);
      if pubkey.None? {
        return Some(InvalidSignature);
      }
      var fromPubkey := crypto.decompressPubkey(msg.from);
      if fromPubkey.None? {
        return Some(Malformed);
      }
      if pubkey.value != fromPubkey.value {
        return Some(InvalidSignature);
      }
      var signatureValid := crypto.verifySignature(pubkey.value, digest, msg.sig.value[..|msg.sig.value| - 1]);
      if !signatureValid {
        return Some(InvalidSignature);
      }
      for i := 0 to |msg.expires|
        invariant CheckExpiry(msg.expires[i..], checkUnixExpiry, now) == CheckExpiry(msg.expires, checkUnixExpiry, now)
      {
        var condition := msg.expires[i];
        if condition.Unix? {
          if !checkUnixExpiry {
            continue;
          }
          if condition.time < now {
            return Some(Expired);
          }
        } else {
          return Some(UnknownExpiryCondition);
        }
      }
      return None;
    }

    method DoSequenceWork(msg: SequenceTx) returns (err: Option<Error>)
      modifies this
      ensures Outcome(State(), err) == Core.DoSequenceWork(crypto, old(State()), msg)
      ensures if old(commits(attempts)) then Grown(crypto, old(State()), State(), lastBlock, msg) && lastBlock.body == Some(msg)
              else Same(old(State()), State())
    {
      var unsigned := ConstructBlock(msg).(height := lastBlock.height + 1, prevBlockHash := SigHash(crypto, lastBlock));
      var block := Signed(crypto, unsigned);
      err := Commit(block);
      if err.Some? {
        return;
      }
      announced := announced + [block];
    }

    /** The loop's answer to a block from the network. The error of the drain is ignored. */
    method HandleBlock(block: Block)
      requires Valid()
      modifies this
      ensures State() == Step(crypto, old(State()), BlockEvent(block))
      ensures Valid()
    {
      StepKeepsWf(crypto, State(), BlockEvent(block));
      var drainErr := CheckOutOfOrderBlocks();
      var err := DoProcessBlock(block);
    }

    /** `Sequence` followed by the work it enqueues. The number it returns is always 0. */
    method Sequence(msg: Option<SequenceTx>, now: nat) returns (num: int, err: Option<Error>)
      requires Valid()
      modifies this
      ensures num == 0 && err == SequenceCheck(crypto, old(State()), msg, now)
      ensures State() == Step(crypto, old(State()), SequenceCall(msg, now))
      ensures err.None? <==> hasSigner && msg.Some? && Acceptable(crypto, msg.value, true, now)
      ensures if err.None? && old(commits(attempts)) then
                Grown(crypto, old(State()), State(), lastBlock, msg.value) && lastBlock.body == msg
              else Same(old(State()), State())
      ensures Valid()
    {
      SequenceExactly(crypto, State(), msg, now);
      AnswerExactly(crypto, State(), msg, now);
      StepKeepsWf(crypto, State(), SequenceCall(msg, now));
      num := 0;
      if !hasSigner {
        return 0, Some(ReplicaMode);
      }
      if msg.None? {
        return 0, Some(Undecodable);
      }
      err := VerifySequenceMessage(msg.value, true, now);
      if err.Some? {
        return;
      }
      var workErr := DoSequenceWork(msg.value);
    }

    /** Scans the `sequence` table; row numbers start at 1. */
    method Get(from: nat, to: nat) returns (txs: seq<SequenceTx>)
      ensures txs == RowsInRange(sequence, from, to)
    {
      txs := [];
      for row := 0 to |sequence|
        invariant txs == RowsInRange(sequence[..row], from, to)
      {
        var num := row + 1;
        RowsOfOneMore(sequence[..row], sequence[row], from, to);
        assert sequence[..num] == sequence[..row] + [sequence[row]];
        if num >= from && num <= to {
          txs := txs + [sequence[row]];
        }
      }
      assert sequence[..|sequence|] == sequence;
    }

    method Info() returns (count: nat)
      requires Valid()
      ensures count == lastBlock.height
    {
      count := |sequence|;
      HeightIsIndex(crypto, chain, |chain| - 1);
    }

    /** The first buffered height from the tip on, below `max`. */
    method WaitedBlocks(max: int) returns (height: int)
      requires Valid()
      ensures height == -1 ==> forall h :: lastBlock.height <= h < max ==> h !in unprocessedBlockAtHeight
      ensures height != -1 ==>
                && lastBlock.height <= height < max && height in unprocessedBlockAtHeight
                && forall h :: lastBlock.height <= h < height ==> h !in unprocessedBlockAtHeight
      ensures BufferAbove(State()) ==>
                if height == -1 then forall h :: h in unprocessedBlockAtHeight ==> h >= max
                else height in unprocessedBlockAtHeight && forall h :: h in unprocessedBlockAtHeight ==> h >= height
    {
      height := lastBlock.height;
      HeightIsIndex(crypto, chain, |chain| - 1);
      while height < max
        invariant lastBlock.height <= height
        invariant forall h :: lastBlock.height <= h < height ==> h !in unprocessedBlockAtHeight
      {
        if height in unprocessedBlockAtHeight {
          return;
        }
        height := height + 1;
      }
      return -1;
    }
  }
}
