/**
 Whose signature a block and a message need, which messages are expired, what processing a block and sequencing
 a message leave: each condition spelled out on the fields and the library functions.
 */
module Acceptance {
  import opened Common
  import opened Messages
  import opened Core
  import opened Chain

  // ---------- Blocks ----------

  /** A valid signature of the operator key over the block's digest. */
  predicate SignedByOperator(c: Crypto, block: Block) {
    SignedBy(c, c.operatorPubkey, SigHash(c, block), block.sig)
  }

  lemma OperatorSignedExactly(c: Crypto, block: Block)
    ensures OperatorSigned(c, block) <==> SignedByOperator(c, block)
  {
  }

  /** A block without a valid signature of the operator key has no effect, and the error says what is wrong. */
  lemma UnsignedBlockIsRejected(c: Crypto, n: Node, block: Block)
    requires !SignedByOperator(c, block)
    ensures
      var r := DoProcessBlock(c, n, block);
      && r.node == n
      && r.error == Some(if block.sig.None? then MissingSignature
                         else match c.ecrecover(SigHash(c, block), block.sig.value)
                              case None => InvalidSignature
                              case Some(key) => if key == c.operatorPubkey then InvalidSignature else InvalidSigner)
  {
  }

  /** Nor has one that is not above the tip. */
  lemma OldBlockIsIgnored(c: Crypto, n: Node, block: Block)
    requires SignedByOperator(c, block) && block.height <= n.last.height
    ensures DoProcessBlock(c, n, block) == Outcome(n, None)
  {
  }

  /** An early one is counted and buffered at its height, in place of what was there. */
  lemma EarlyBlockIsBuffered(c: Crypto, n: Node, block: Block)
    requires SignedByOperator(c, block) && block.height > n.last.height + 1
    ensures
      var r := DoProcessBlock(c, n, block);
      && r.error.None? && r.node == n.(totalSeen := n.totalSeen + 1, unprocessed := r.node.unprocessed)
      && block.height in r.node.unprocessed && r.node.unprocessed[block.height] == block
      && (forall h :: h in r.node.unprocessed <==> h in n.unprocessed || h == block.height)
      && (forall h :: h in n.unprocessed && h != block.height ==> r.node.unprocessed[h] == n.unprocessed[h])
  {
  }

  /** The next one is ingested if link, body and write are right, and is only counted if not. */
  lemma NextBlockIsChecked(c: Crypto, n: Node, block: Block)
    requires SignedByOperator(c, block) && block.height == n.last.height + 1
    ensures
      var r := DoProcessBlock(c, n, block);
      var linked := block.prevBlockHash == SigHash(c, n.last);
      var body := block.body;
      && r.node.totalSeen == n.totalSeen + 1 && r.node.unprocessed == n.unprocessed && r.node.announced == n.announced
      && (r.error.None? <==> linked && body.Some? && Acceptable(c, body.value, false, 0) && n.db.commits(n.db.attempts))
      && (r.error.None? ==> Grown(c, n, r.node, block, body.value))
      && (r.error.Some? ==> Same(n, r.node))
      && (!linked ==> r.error == Some(PrevHashMismatch))
      && (linked && body.None? ==> r.error == Some(EmptyBody))
      && (linked && body.Some? && !Acceptable(c, body.value, false, 0) ==>
            r.error == VerifySequenceMessage(c, body.value, false, 0))
      && (r.error == Some(WriteFailed) <==>
            linked && body.Some? && Acceptable(c, body.value, false, 0) && !n.db.commits(n.db.attempts))
      && r.node.db.attempts ==
         n.db.attempts + if linked && body.Some? && Acceptable(c, body.value, false, 0) then 1 else 0
  {
    if block.body.Some? {
      AcceptedExactly(c, block.body.value, false, 0);
      ErrorsOfMessages(c, block.body.value, false, 0);
    }
  }

  /** Tip, chain and both tables of n' are those of n with the block and its message appended. */
  predicate Grown(c: Crypto, n: Node, n': Node, block: Block, msg: SequenceTx) {
    && n'.last == block && n'.chain == n.chain + [block]
    && n'.db.sequence == n.db.sequence + [msg]
    && n'.db.blocks == n.db.blocks + [BlockRow(block, SigHash(c, block))]
  }

  /** Tip, chain and both tables are the same. */
  predicate Same(n: Node, n': Node) {
    n'.last == n.last && n'.chain == n.chain && n'.db.sequence == n.db.sequence && n'.db.blocks == n.db.blocks
  }

  /** Every block above genesis on a reachable replica, and every one it buffers, was signed with the operator key. */
  lemma ReplicaHoldsSignedBlocks(c: Crypto, n: Node)
    requires Reachable(c, n) && (!n.hasSigner || SignerIsOperator(c))
    ensures forall i :: 0 < i < |n.chain| ==> SignedByOperator(c, n.chain[i])
    ensures forall h :: h in n.unprocessed ==> SignedByOperator(c, n.unprocessed[h])
  {
    ReachableIsWf(c, n);
    forall i | 0 < i < |n.chain|
      ensures SignedByOperator(c, n.chain[i])
    {
      OperatorSignedExactly(c, n.chain[i]);
    }
    forall h | h in n.unprocessed
      ensures SignedByOperator(c, n.unprocessed[h])
    {
      OperatorSignedExactly(c, n.unprocessed[h]);
    }
  }

  // ---------- Messages ----------

  /** The message carries a signature of the key it names as its sender, over all its other fields. */
  ghost predicate SignedBySender(c: Crypto, m: SequenceTx) {
    exists key :: SignedWith(c, m, key)
  }

  ghost predicate SignedWith(c: Crypto, m: SequenceTx, key: Bytes) {
    var digest := c.keccakTx(SequenceTx(m.from, m.to, m.data, Some([]), m.nonce, m.stateReads, m.stateWrites, m.expires));
    && c.decompressPubkey(m.from) == Some(key)
    && SignedBy(c, key, digest, m.sig)
  }

  /** Condition i is a time, and if times are checked it has not passed. */
  predicate HoldsAt(expires: seq<ExpiryCondition>, checkUnixExpiry: bool, now: nat, i: nat)
    requires i < |expires|
  {
    expires[i].Unix? && (checkUnixExpiry ==> now <= expires[i].time)
  }

  /** The exact condition for a message to pass the check. */
  ghost predicate Acceptable(c: Crypto, m: SequenceTx, checkUnixExpiry: bool, now: nat) {
    && |m.data| > 0 && |m.from| > 0
    && SignedBySender(c, m)
    && forall i :: 0 <= i < |m.expires| ==> HoldsAt(m.expires, checkUnixExpiry, now, i)
  }

  lemma {:induction false} ExpiryExactly(expires: seq<ExpiryCondition>, checkUnixExpiry: bool, now: nat)
    ensures CheckExpiry(expires, checkUnixExpiry, now).None? <==>
            forall i :: 0 <= i < |expires| ==> HoldsAt(expires, checkUnixExpiry, now, i)
  {
    if expires != [] {
      var rest := expires[1..];
      ExpiryExactly(rest, checkUnixExpiry, now);
      assert HoldsAt(expires, checkUnixExpiry, now, 0) <==>
             expires[0].Unix? && (checkUnixExpiry ==> now <= expires[0].time);
      forall i | 0 <= i < |rest|
        ensures HoldsAt(rest, checkUnixExpiry, now, i) <==> HoldsAt(expires, checkUnixExpiry, now, i + 1)
      {
      }
      if (forall i :: 0 <= i < |rest| ==> HoldsAt(rest, checkUnixExpiry, now, i)) && HoldsAt(expires, checkUnixExpiry, now, 0) {
        forall i | 0 <= i < |expires|
          ensures HoldsAt(expires, checkUnixExpiry, now, i)
        {
          if i > 0 {
            assert HoldsAt(rest, checkUnixExpiry, now, i - 1);
          }
        }
      }
    }
  }

  /** The error is that of the first condition that fails. */
  lemma {:induction false} FirstFailingCondition(expires: seq<ExpiryCondition>, checkUnixExpiry: bool, now: nat) returns (i: nat)
    requires CheckExpiry(expires, checkUnixExpiry, now).Some?
    ensures i < |expires| && !HoldsAt(expires, checkUnixExpiry, now, i)
    ensures forall j :: 0 <= j < i ==> HoldsAt(expires, checkUnixExpiry, now, j)
    ensures CheckExpiry(expires, checkUnixExpiry, now) == Some(if expires[i].Unset? then UnknownExpiryCondition else Expired)
  {
    if !HoldsAt(expires, checkUnixExpiry, now, 0) {
      i := 0;
    } else {
      var k := FirstFailingCondition(expires[1..], checkUnixExpiry, now);
      i := k + 1;
      forall j | 0 <= j < i
        ensures HoldsAt(expires, checkUnixExpiry, now, j)
      {
        if j > 0 {
          assert HoldsAt(expires[1..], checkUnixExpiry, now, j - 1);
        }
      }
    }
  }

  /** A message is accepted if and only if it is acceptable. */
  lemma AcceptedExactly(c: Crypto, m: SequenceTx, checkUnixExpiry: bool, now: nat)
    ensures VerifySequenceMessage(c, m, checkUnixExpiry, now).None? <==> Acceptable(c, m, checkUnixExpiry, now)
  {
    MessageDigest(c, m);
    ExpiryExactly(m.expires, checkUnixExpiry, now);
    if m.sig.Some? && c.decompressPubkey(m.from).Some? {
      var key := c.decompressPubkey(m.from).value;
      assert SignedWith(c, m, key) <==> SignedBy(c, key, TxSigHash(c, m), m.sig);
    }
  }

  lemma {:induction false} ErrorsOfExpiry(expires: seq<ExpiryCondition>, checkUnixExpiry: bool, now: nat)
    ensures var e := CheckExpiry(expires, checkUnixExpiry, now);
      e.None? || e == Some(Expired) || e == Some(UnknownExpiryCondition)
  {
    if expires != [] {
      ErrorsOfExpiry(expires[1..], checkUnixExpiry, now);
    }
  }

  /** A message is never the reason for a failed write. */
  lemma ErrorsOfMessages(c: Crypto, m: SequenceTx, checkUnixExpiry: bool, now: nat)
    ensures VerifySequenceMessage(c, m, checkUnixExpiry, now) != Some(WriteFailed)
  {
    ErrorsOfExpiry(m.expires, checkUnixExpiry, now);
  }

  /** What is wrong with a message that is not, in the order of the checks. */
  lemma VerifyErrors(c: Crypto, m: SequenceTx, checkUnixExpiry: bool, now: nat)
    requires !Acceptable(c, m, checkUnixExpiry, now)
    ensures
      var e := VerifySequenceMessage(c, m, checkUnixExpiry, now);
      && (|m.data| == 0 || m.sig.None? || |m.from| == 0 ==> e == Some(Malformed))
      && (|m.data| > 0 && |m.from| > 0 && m.sig.Some? ==>
            if c.ecrecover(TxSigHash(c, m), m.sig.value).None? then e == Some(InvalidSignature)
            else if c.decompressPubkey(m.from).None? then e == Some(Malformed)
            else if !SignedBySender(c, m) then e == Some(InvalidSignature)
            else e == CheckExpiry(m.expires, checkUnixExpiry, now) && (e == Some(Expired) || e == Some(UnknownExpiryCondition)))
  {
    AcceptedExactly(c, m, checkUnixExpiry, now);
    MessageDigest(c, m);
    if CheckExpiry(m.expires, checkUnixExpiry, now).Some? {
      var i := FirstFailingCondition(m.expires, checkUnixExpiry, now);
    }
    if c.decompressPubkey(m.from).Some? {
      assert SignedWith(c, m, c.decompressPubkey(m.from).value) ==> SignedBySender(c, m);
    }
  }

  /** Every message in a table of a reachable node was signed by its sender. */
  lemma TableHoldsSignedMessages(c: Crypto, n: Node)
    requires Reachable(c, n)
    ensures forall i :: 0 <= i < |n.db.sequence| ==> Acceptable(c, n.db.sequence[i], false, 0)
  {
    ReachableIsWf(c, n);
    forall i | 0 <= i < |n.db.sequence|
      ensures Acceptable(c, n.db.sequence[i], false, 0)
    {
      assert LinkAt(c, n.chain, i + 1) && RowAt(c, n.db.sequence, n.db.blocks, n.chain, i + 1);
      AcceptedExactly(c, n.db.sequence[i], false, 0);
    }
  }

  // ---------- Sequencing ----------

  /** `Sequence` accepts exactly a decodable, acceptable message at a primary. */
  lemma AnswerExactly(c: Crypto, n: Node, msg: Option<SequenceTx>, now: nat)
    ensures SequenceCheck(c, n, msg, now).None? <==> n.hasSigner && msg.Some? && Acceptable(c, msg.value, true, now)
    ensures !n.hasSigner ==> SequenceCheck(c, n, msg, now) == Some(ReplicaMode)
    ensures n.hasSigner && msg.None? ==> SequenceCheck(c, n, msg, now) == Some(Undecodable)
  {
    if msg.Some? {
      AcceptedExactly(c, msg.value, true, now);
    }
  }

  /** A message that is well signed is answered `Expired` exactly when the first condition that fails is a time that has passed. */
  lemma ExpiredExactly(c: Crypto, n: Node, m: SequenceTx, now: nat)
    requires n.hasSigner && |m.data| > 0 && |m.from| > 0 && SignedBySender(c, m)
    ensures SequenceCheck(c, n, Some(m), now) == Some(Expired) <==>
            exists i: nat :: i < |m.expires| && m.expires[i].Unix? && !HoldsAt(m.expires, true, now, i) &&
                             forall j: nat :: j < i ==> HoldsAt(m.expires, true, now, j)
  {
    AcceptedExactly(c, m, true, now);
    MessageDigest(c, m);
    ExpiryExactly(m.expires, true, now);
    var key :| SignedWith(c, m, key);
    assert SequenceCheck(c, n, Some(m), now) == CheckExpiry(m.expires, true, now);
    if CheckExpiry(m.expires, true, now).Some? {
      var i := FirstFailingCondition(m.expires, true, now);
      if k: nat :| k < |m.expires| && m.expires[k].Unix? && !HoldsAt(m.expires, true, now, k) &&
                   forall j: nat :: j < k ==> HoldsAt(m.expires, true, now, j) {
        assert k <= i && i <= k;
      }
    }
  }

  /**
   A call of `Sequence`: if the message is accepted and the write commits, table and chain grow by this message
   and a block with it as its body, and the block is announced; if not, table, tip and chain are the same.
   */
  lemma SequenceExactly(c: Crypto, n: Node, msg: Option<SequenceTx>, now: nat)
    requires KeysMatch(n)
    ensures
      var n' := Step(c, n, SequenceCall(msg, now));
      var accepted := n.hasSigner && msg.Some? && Acceptable(c, msg.value, true, now);
      && n'.unprocessed == n.unprocessed && n'.hasSigner == n.hasSigner && n'.db.commits == n.db.commits
      && n'.db.attempts == n.db.attempts + (if accepted then 1 else 0)
      && if accepted && n.db.commits(n.db.attempts) then
           && Grown(c, n, n', n'.last, msg.value)
           && n'.last.body == Some(msg.value)
           && n'.last.height == n.last.height + 1 && n'.last.prevBlockHash == SigHash(c, n.last)
           && n'.last.sig == Some(c.sign(SigHash(c, n'.last)))
           && n'.announced == n.announced + [n'.last]
         else Same(n, n') && n'.announced == n.announced
  {
    AnswerExactly(c, n, msg, now);
    if msg.Some? {
      var unsigned := ConstructBlock(msg.value).(height := n.last.height + 1, prevBlockHash := SigHash(c, n.last));
      SigningKeepsSigHash(c, unsigned);
    }
  }

  // ---------- Runs of calls ----------

  /** The acceptable messages of the calls, in order. */
  ghost function AcceptedOf(c: Crypto, events: seq<Event>): seq<SequenceTx> {
    if events == [] then []
    else
      var before, e := AcceptedOf(c, events[..|events| - 1]), events[|events| - 1];
      if e.SequenceCall? && e.msg.Some? && Acceptable(c, e.msg.value, true, e.now) then before + [e.msg.value] else before
  }

  /** Of the first accepted messages, those whose write took effect: accepted message i makes attempt number i. */
  function CommittedOf(messages: seq<SequenceTx>, commits: nat -> bool): seq<SequenceTx> {
    if messages == [] then []
    else
      var before, n := CommittedOf(messages[..|messages| - 1], commits), |messages| - 1;
      if commits(n) then before + [messages[n]] else before
  }

  /** The table of n is what the messages put there. */
  ghost predicate TableOf(n: Node, messages: seq<SequenceTx>) {
    n.db.attempts == |messages| && n.db.sequence == CommittedOf(messages, n.db.commits)
  }

  lemma CommittedOneMore(messages: seq<SequenceTx>, m: SequenceTx, commits: nat -> bool)
    ensures CommittedOf(messages + [m], commits) ==
            if commits(|messages|) then CommittedOf(messages, commits) + [m] else CommittedOf(messages, commits)
  {
    assert (messages + [m])[..|messages|] == messages;
  }

  lemma CallKeepsTable(c: Crypto, n: Node, msg: Option<SequenceTx>, now: nat, messages: seq<SequenceTx>)
    requires KeysMatch(n) && n.hasSigner && TableOf(n, messages)
    ensures
      var accepted := msg.Some? && Acceptable(c, msg.value, true, now);
      TableOf(Step(c, n, SequenceCall(msg, now)), if accepted then messages + [msg.value] else messages)
  {
    SequenceExactly(c, n, msg, now);
    if msg.Some? {
      CommittedOneMore(messages, msg.value, n.db.commits);
    }
  }

  /**
   The `sequence` table of a primary that handled calls of `Sequence` is exactly the accepted messages whose
   write took effect, in the order of the calls.
   */
  lemma {:induction false} TableIsTheCalls(c: Crypto, commits: nat -> bool, events: seq<Event>)
    requires forall i :: 0 <= i < |events| ==> events[i].SequenceCall?
    ensures
      var n := Run(c, Init(true, commits), events);
      n.hasSigner && n.db.commits == commits && TableOf(n, AcceptedOf(c, events))
  {
    if events != [] {
      var before, e := events[..|events| - 1], events[|events| - 1];
      TableIsTheCalls(c, commits, before);
      var n := Run(c, Init(true, commits), before);
      CallKeepsTable(c, n, e.msg, e.now, AcceptedOf(c, before));
      SequenceExactly(c, n, e.msg, e.now);
    }
  }
}
