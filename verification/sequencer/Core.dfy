/**
 The behaviour of one sequencer node as functions on its state: `doProcessBlock`, the drain of the
 out-of-order map, `doSequenceWork` and the event loop. The class in Sequencer.dfy updates its
 fields in place and is proved against these functions.
 */
module Core {
  import opened Common
  import opened Messages

  /** A row of the `blocks` table. The row number is its index plus one. */
  datatype BlockRow = BlockRow(block: Block, hash: Bytes)

  /**
   The database. A row of `sequence` is a message. Transaction number i (counting every attempt)
   takes effect if and only if `commits(i)`: a failed begin, insert or commit has no effect.
   */
  datatype Db = Db(sequence: seq<SequenceTx>, blocks: seq<BlockRow>, attempts: nat, commits: nat -> bool)

  /**
   The state of a node. `chain` is the history of values of LastBlock, genesis first, and
   `announced` the blocks its listeners were notified of. Neither is read by any operation.
   */
  datatype Node = Node(
    hasSigner: bool,
    last: Block,
    unprocessed: map<int, Block>,
    totalSeen: nat,
    db: Db,
    chain: seq<Block>,
    announced: seq<Block>)

  /** The state an operation leaves and the error it returns, if any. */
  datatype Outcome = Outcome(node: Node, error: Option<Error>)

  const GENESIS := Block([0], None, None, 0)

  function Init(hasSigner: bool, commits: nat -> bool): Node {
    Node(hasSigner, GENESIS, map[], 0, Db([], [], 0, commits), [GENESIS], [])
  }

  // ---------- Verification of signatures and messages ----------

  function VerifyOperatorSignature(c: Crypto, block: Block): Option<Error> {
    if block.sig.None? then Some(MissingSignature)
    else
      var digest := SigHash(c, block);
      var pubkey := c.ecrecover(digest, block.sig.value);
      if pubkey.None? then Some(InvalidSignature)
      else if pubkey.value != c.operatorPubkey then Some(InvalidSigner)
      else if !c.verifySignature(pubkey.value, digest, block.sig.value[..|block.sig.value| - 1]) then
        Some(InvalidSignature)
      else None
  }

  predicate OperatorSigned(c: Crypto, block: Block) {
    VerifyOperatorSignature(c, block).None?
  }

  function CheckExpiry(expires: seq<ExpiryCondition>, checkUnixExpiry: bool, now: nat): Option<Error> {
    if expires == [] then None
    else if expires[0].Unset? then Some(UnknownExpiryCondition)
    else if checkUnixExpiry && expires[0].time < now then Some(Expired)
    else CheckExpiry(expires[1..], checkUnixExpiry, now)
  }

  function VerifySequenceMessage(c: Crypto, msg: SequenceTx, checkUnixExpiry: bool, now: nat): Option<Error> {
    if |msg.data| == 0 || msg.sig.None? then Some(Malformed)
    else if |msg.from| == 0 then Some(Malformed)
    else
      var digest := TxSigHash(c, msg);
      var pubkey := c.ecrecover(digest, msg.sig.value);
      if pubkey.None? then Some(InvalidSignature)
      else
        var fromPubkey := c.decompressPubkey(msg.from);
        if fromPubkey.None? then Some(Malformed)
        else if pubkey.value != fromPubkey.value then Some(InvalidSignature)
        else if !c.verifySignature(pubkey.value, digest, msg.sig.value[..|msg.sig.value| - 1]) then
          Some(InvalidSignature)
        else CheckExpiry(msg.expires, checkUnixExpiry, now)
  }

  /** A block body that replicas accept; replicas never check unix expiry, so time does not matter. */
  predicate BodyAccepted(c: Crypto, block: Block) {
    block.body.Some? && VerifySequenceMessage(c, block.body.value, false, 0).None?
  }

  // ---------- Operations ----------

  /** One database transaction that inserts a row in each table and, if it commits, moves the tip. */
  function Commit(c: Crypto, n: Node, block: Block): Outcome
    requires block.body.Some?
  {
    var tried := n.db.(attempts := n.db.attempts + 1);
    if !n.db.commits(n.db.attempts) then Outcome(n.(db := tried), Some(WriteFailed))
    else
      var db := tried.(sequence := tried.sequence + [block.body.value],
                       blocks := tried.blocks + [BlockRow(block, SigHash(c, block))]);
      Outcome(n.(db := db, last := block, chain := n.chain + [block]), None)
  }

  function DoProcessBlock(c: Crypto, n: Node, block: Block): Outcome {
    if !OperatorSigned(c, block) then Outcome(n, VerifyOperatorSignature(c, block))
    else if block.height <= n.last.height then Outcome(n, None)
    else
      var seen := n.(totalSeen := n.totalSeen + 1);
      if n.last.height + 1 < block.height then
        Outcome(seen.(unprocessed := n.unprocessed[block.height := block]), None)
      else if block.prevBlockHash != SigHash(c, n.last) then Outcome(seen, Some(PrevHashMismatch))
      else if block.body.None? then Outcome(seen, Some(EmptyBody))
      else if !BodyAccepted(c, block) then Outcome(seen, VerifySequenceMessage(c, block.body.value, false, 0))
      else Commit(c, seen, block)
  }

  /** Every buffered block sits at its own height. */
  predicate KeysMatch(n: Node) {
    forall h :: h in n.unprocessed ==> n.unprocessed[h].height == h
  }

  /** One pass of the drain: process the buffered child of the tip. */
  function Pass(c: Crypto, n: Node): Outcome
    requires n.last.height + 1 in n.unprocessed
  {
    DoProcessBlock(c, n, n.unprocessed[n.last.height + 1])
  }

  /** `delete(s.unprocessedBlockAtHeight, s.LastBlock.Height)` */
  function WithoutTip(n: Node): Node {
    n.(unprocessed := n.unprocessed - {n.last.height})
  }

  /** A pass that reports no error ingested the child and uses up its entry. */
  lemma SuccessfulPass(c: Crypto, n: Node)
    requires KeysMatch(n) && n.last.height + 1 in n.unprocessed && Pass(c, n).error.None?
    ensures
      var block := n.unprocessed[n.last.height + 1];
      var seen := n.(totalSeen := n.totalSeen + 1);
      && OperatorSigned(c, block) && block.height == n.last.height + 1
      && block.prevBlockHash == SigHash(c, n.last) && BodyAccepted(c, block)
      && Pass(c, n) == Commit(c, seen, block)
    ensures
      var n' := WithoutTip(Pass(c, n).node);
      && n'.last.height == n.last.height + 1
      && n'.unprocessed == n.unprocessed - {n.last.height + 1}
      && |n'.unprocessed| == |n.unprocessed| - 1
      && KeysMatch(n')
  {
    var n' := WithoutTip(Pass(c, n).node);
    assert n.unprocessed.Keys == n'.unprocessed.Keys + {n.last.height + 1};
    assert |n.unprocessed.Keys| == |n'.unprocessed.Keys| + 1;
  }

  /** `checkOutOfOrderBlocks`: process the child of the tip as long as it is buffered. */
  function Drain(c: Crypto, n: Node): (r: Outcome)
    requires KeysMatch(n)
    ensures KeysMatch(r.node)
    decreases |n.unprocessed|
  {
    if n.last.height + 1 !in n.unprocessed then Outcome(n, None)
    else if Pass(c, n).error.Some? then Pass(c, n)
    else
      SuccessfulPass(c, n);
      Drain(c, WithoutTip(Pass(c, n).node))
  }

  /** The drain goes on from a successful pass. */
  lemma DrainGoesOn(c: Crypto, n: Node)
    requires KeysMatch(n) && n.last.height + 1 in n.unprocessed && Pass(c, n).error.None?
    ensures
      var n' := WithoutTip(Pass(c, n).node);
      KeysMatch(n') && |n'.unprocessed| < |n.unprocessed| && Drain(c, n) == Drain(c, n')
  {
    SuccessfulPass(c, n);
  }

  function SequencedBlock(c: Crypto, n: Node, msg: SequenceTx): Block {
    Signed(c, ConstructBlock(msg).(height := n.last.height + 1, prevBlockHash := SigHash(c, n.last)))
  }

  function DoSequenceWork(c: Crypto, n: Node, msg: SequenceTx): Outcome {
    var block := SequencedBlock(c, n, msg);
    var r := Commit(c, n, block);
    if r.error.Some? then r else r.(node := r.node.(announced := n.announced + [block]))
  }

  /** What `Sequence` answers before it hands the message to the loop. */
  function SequenceCheck(c: Crypto, n: Node, msg: Option<SequenceTx>, now: nat): Option<Error> {
    if !n.hasSigner then Some(ReplicaMode)
    else if msg.None? then Some(Undecodable)
    else VerifySequenceMessage(c, msg.value, true, now)
  }

  /** The rows a range query with inclusive bounds returns, in ascending order of row number. */
  function RowsInRange<T>(sequence: seq<T>, from: nat, to: nat): seq<T> {
    var lo := if from == 0 then 0 else from - 1;
    var hi := if to <= |sequence| then to else |sequence|;
    if lo <= hi then sequence[lo..hi] else []
  }

  lemma RowsOfOneMore(table: seq<SequenceTx>, x: SequenceTx, from: nat, to: nat)
    ensures RowsInRange(table + [x], from, to) ==
            if from <= |table| + 1 <= to then RowsInRange(table, from, to) + [x] else RowsInRange(table, from, to)
  {
    var lo := if from == 0 then 0 else from - 1;
    var more := table + [x];
    if from <= |table| + 1 <= to {
      assert more[lo..|more|] == table[lo..|table|] + [x];
    } else if to <= |table| && lo <= to {
      assert more[lo..to] == table[lo..to];
    }
  }

  // ---------- The event loop ----------

  /**
   An event of the loop: a block from the network, or a call of `Sequence` at time `now` with
   a message that may not decode. Verification in `Sequence` reads no state that events change,
   so it may be placed next to the work it enqueues.
   */
  datatype Event = BlockEvent(block: Block) | SequenceCall(msg: Option<SequenceTx>, now: nat)

  function Step(c: Crypto, n: Node, e: Event): (n': Node)
    requires KeysMatch(n)
    ensures KeysMatch(n')
  {
    match e
    case BlockEvent(block) => DoProcessBlock(c, Drain(c, n).node, block).node
    case SequenceCall(msg, now) =>
      if SequenceCheck(c, n, msg, now).Some? then n else DoSequenceWork(c, n, msg.value).node
  }

  function Run(c: Crypto, n: Node, events: seq<Event>): (n': Node)
    requires KeysMatch(n)
    ensures KeysMatch(n')
  {
    if events == [] then n
    else Step(c, Run(c, n, events[..|events| - 1]), events[|events| - 1])
  }
}
