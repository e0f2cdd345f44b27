/**
 One replica against an honest chain: whatever is delivered, in any order, with duplicates, losses
 and forgeries, its chain is a prefix of the honest one, and at the next block event it catches up with
 everything delivered so far, except what an event forgot because a write failed.
 */
module Replica {
  import opened Common
  import opened Messages
  import opened Core
  import opened Chain

  ghost predicate ContentPrefix(chain: seq<Block>, pc: seq<Block>) {
    |chain| <= |pc| && forall i :: 0 <= i < |chain| ==> Content(chain[i]) == Content(pc[i])
  }

  /** A block the network can deliver: forged, or with the content the honest chain has at its height. */
  ghost predicate Legit(c: Crypto, pc: seq<Block>, block: Block) {
    OperatorSigned(c, block) ==> 0 < block.height < |pc| && Content(block) == Content(pc[block.height])
  }

  /** The replica's chain and its buffer hold content of the honest chain only. */
  ghost predicate Agrees(c: Crypto, pc: seq<Block>, n: Node) {
    && Wf(c, n)
    && ContentPrefix(n.chain, pc)
    && forall h :: h in n.unprocessed ==> Legit(c, pc, n.unprocessed[h])
  }

  lemma TipHeight(c: Crypto, n: Node)
    requires Wf(c, n)
    ensures |n.chain| == n.last.height + 1
  {
    HeightIsIndex(c, n.chain, |n.chain| - 1);
  }

  /** Equal content means the same body, once one of the two is an accepted body. */
  lemma SameAcceptedBody(c: Crypto, a: Block, b: Block)
    requires Content(a) == Content(b) && BodyAccepted(c, b)
    ensures a.body == b.body && BodyAccepted(c, a)
  {
    var x, y := a.body.value, b.body.value;
    assert Content(a).body == Some(WireTx(x)) && Content(b).body == Some(WireTx(y));
    assert |y.sig.value| == SIGNATURE_LENGTH;
    assert WireBytes(x.sig) == WireBytes(y.sig);
    assert x == WireTx(x).(sig := x.sig) && y == WireTx(y).(sig := y.sig);
  }

  /** A block with the content of the honest chain's next block extends a replica's chain. */
  lemma NextIsAccepted(c: Crypto, pc: seq<Block>, n: Node, block: Block)
    requires Linked(c, pc)
    requires 0 < block.height < |pc| && Content(block) == Content(pc[block.height])
    requires n.last.height + 1 == block.height && Content(n.last) == Content(pc[block.height - 1])
    ensures Extends(c, n, block)
  {
    assert LinkAt(c, pc, block.height);
    SameContentFields(block, pc[block.height]);
    SameAcceptedBody(c, block, pc[block.height]);
  }

  /**
   Any block on the primary's chain is accepted by any replica that stands at the preceding height
   with the same tip content, at any later time: no check of `doProcessBlock` fails, also after the
   message's unix expiry. Only a failing write can keep it out.
   */
  lemma HonestBlockAccepted(c: Crypto, primary: Node, i: nat, replica: Node, later: nat)
    requires Reachable(c, primary) && SignerIsOperator(c)
    requires 0 < i < |primary.chain|
    requires replica.last.height == i - 1 && Content(replica.last) == Content(primary.chain[i - 1])
    ensures
      var block := primary.chain[i];
      var r := DoProcessBlock(c, replica, block);
      && block.body.Some? && VerifySequenceMessage(c, block.body.value, false, later).None?
      && if replica.db.commits(replica.db.attempts) then r.error.None? && r.node.last == block
         else r.error == Some(WriteFailed) && r.node.last == replica.last
  {
    ReachableIsWf(c, primary);
    var block := primary.chain[i];
    HeightIsIndex(c, primary.chain, i);
    NextIsAccepted(c, primary.chain, replica, block);
    UncheckedExpiryIgnoresTime(block.body.value.expires, 0, later);
  }

  // ---------- Safety of one node ----------

  lemma CommitKeepsAgreement(c: Crypto, pc: seq<Block>, n: Node, block: Block)
    requires Agrees(c, pc, n) && Extends(c, n, block)
    requires 0 <= block.height < |pc| && Content(block) == Content(pc[block.height])
    ensures Agrees(c, pc, Commit(c, n, block).node)
  {
    TipHeight(c, n);
    CommitKeepsWf(c, n, block);
  }

  lemma BufferKeepsAgreement(c: Crypto, pc: seq<Block>, n: Node, block: Block, n': Node)
    requires Agrees(c, pc, n) && Legit(c, pc, block) && n'.chain == n.chain && n'.last == n.last
    requires n'.db.sequence == n.db.sequence && n'.db.blocks == n.db.blocks
    requires n'.unprocessed == n.unprocessed ||
             (OperatorSigned(c, block) && n'.unprocessed == n.unprocessed[block.height := block])
    ensures Agrees(c, pc, n')
  {
    BufferKeepsWf(c, n, block, n');
  }

  lemma ProcessKeepsAgreement(c: Crypto, pc: seq<Block>, n: Node, block: Block, n': Node)
    requires Agrees(c, pc, n) && Legit(c, pc, block) && n' == DoProcessBlock(c, n, block).node
    ensures Agrees(c, pc, n')
  {
    ProcessCases(c, n, block, n');
    if n'.chain != n.chain {
      CommitKeepsAgreement(c, pc, n.(totalSeen := n.totalSeen + 1), block);
    } else {
      BufferKeepsAgreement(c, pc, n, block, n');
    }
  }

  lemma {:induction false} DrainKeepsAgreement(c: Crypto, pc: seq<Block>, n: Node)
    requires Agrees(c, pc, n)
    ensures Agrees(c, pc, Drain(c, n).node)
    decreases |n.unprocessed|
  {
    if n.last.height + 1 in n.unprocessed {
      ProcessKeepsAgreement(c, pc, n, n.unprocessed[n.last.height + 1], Pass(c, n).node);
      if Pass(c, n).error.None? {
        SuccessfulPass(c, n);
        DrainKeepsAgreement(c, pc, WithoutTip(Pass(c, n).node));
      }
    }
  }

  /** A block event keeps a node's chain a prefix of the honest chain, whatever its writes do. */
  lemma BlockEventKeepsAgreement(c: Crypto, pc: seq<Block>, n: Node, block: Block)
    requires Agrees(c, pc, n) && Legit(c, pc, block)
    ensures Agrees(c, pc, Step(c, n, BlockEvent(block)))
  {
    DrainKeepsAgreement(c, pc, n);
    ProcessKeepsAgreement(c, pc, Drain(c, n).node, block, Step(c, n, BlockEvent(block)));
  }

  lemma AgreementSurvivesGrowth(c: Crypto, pc: seq<Block>, pc': seq<Block>, n: Node)
    requires Agrees(c, pc, n) && pc <= pc'
    ensures Agrees(c, pc', n)
  {
    forall h | h in n.unprocessed
      ensures Legit(c, pc', n.unprocessed[h])
    {
      assert Legit(c, pc, n.unprocessed[h]);
    }
  }

  // ---------- Convergence of one node ----------

  /** A validly signed block of height i is among the deliveries. */
  ghost predicate Delivered(c: Crypto, ds: seq<Block>, i: int) {
    exists d :: d in ds && OperatorSigned(c, d) && d.height == i
  }

  ghost predicate Contiguous(c: Crypto, ds: seq<Block>, k: int) {
    forall i :: 1 <= i <= k ==> Delivered(c, ds, i)
  }

  /** k is the largest height such that 1..k have been delivered. */
  ghost predicate Front(c: Crypto, ds: seq<Block>, k: int) {
    k >= 0 && Contiguous(c, ds, k) && forall h :: Contiguous(c, ds, h) ==> h <= k
  }

  lemma FrontIsGap(c: Crypto, ds: seq<Block>, k: nat)
    requires Contiguous(c, ds, k) && !Delivered(c, ds, k + 1)
    ensures Front(c, ds, k)
  {
  }

  lemma GapIsFront(c: Crypto, ds: seq<Block>, k: nat)
    requires Front(c, ds, k)
    ensures !Delivered(c, ds, k + 1)
  {
    assert !Contiguous(c, ds, k + 1);
  }

  /**
   A replica holds what was delivered: every delivered height is on its chain or buffered, and everything it
   holds was delivered.
   */
  ghost predicate Tracks(c: Crypto, pc: seq<Block>, n: Node, ds: seq<Block>) {
    && Agrees(c, pc, n)
    && Linked(c, pc)
    && (forall h :: h in n.unprocessed ==> Delivered(c, ds, h))
    && Contiguous(c, ds, n.last.height)
    && (forall i :: Delivered(c, ds, i) ==> i <= n.last.height || i in n.unprocessed)
  }

  /** Every write attempted on the way from n to n' took effect. */
  ghost predicate WritesCommit(n: Node, n': Node) {
    forall i :: n.db.attempts <= i < n'.db.attempts ==> n.db.commits(i)
  }

  /** A delivered child of the tip passes every check; the write decides. */
  lemma ChildIsAccepted(c: Crypto, pc: seq<Block>, n: Node, block: Block)
    requires Agrees(c, pc, n) && Linked(c, pc)
    requires OperatorSigned(c, block) && Legit(c, pc, block) && block.height == n.last.height + 1
    ensures Extends(c, n, block)
    ensures DoProcessBlock(c, n, block) == Commit(c, n.(totalSeen := n.totalSeen + 1), block)
  {
    TipHeight(c, n);
    NextIsAccepted(c, pc, n, block);
  }

  /** Ingesting a delivered child of the tip keeps track, with its entry freed as well. */
  lemma CommitKeepsTrack(c: Crypto, pc: seq<Block>, n: Node, ds: seq<Block>, block: Block, n': Node)
    requires Tracks(c, pc, n, ds) && OperatorSigned(c, block) && Legit(c, pc, block)
    requires block.height == n.last.height + 1 && Delivered(c, ds, block.height)
    requires n.db.commits(n.db.attempts) && n' == DoProcessBlock(c, n, block).node
    ensures n'.last == block && n'.unprocessed == n.unprocessed
    ensures Tracks(c, pc, WithoutTip(n'), ds)
  {
    ChildIsAccepted(c, pc, n, block);
    ProcessKeepsAgreement(c, pc, n, block, n');
  }

  /** What only a commit changes is the same after a failed write. */
  lemma FailureKeepsTrack(c: Crypto, pc: seq<Block>, n: Node, ds: seq<Block>, n': Node)
    requires Tracks(c, pc, n, ds)
    requires n'.last == n.last && n'.unprocessed == n.unprocessed && n'.chain == n.chain
    requires n'.db.sequence == n.db.sequence && n'.db.blocks == n.db.blocks
    ensures Tracks(c, pc, n', ds)
  {
  }

  /** With an honest operator the drain keeps track, whatever its writes do. */
  lemma {:induction false} DrainKeepsTrack(c: Crypto, pc: seq<Block>, n: Node, ds: seq<Block>)
    requires Tracks(c, pc, n, ds)
    ensures Tracks(c, pc, Drain(c, n).node, ds)
    decreases |n.unprocessed|
  {
    if n.last.height + 1 in n.unprocessed {
      PassErrsOnWriteOnly(c, pc, n, Pass(c, n));
      if Pass(c, n).error.None? {
        DrainGoesOn(c, n);
        PassKeepsTrack(c, pc, n, ds, Pass(c, n).node);
        DrainKeepsTrack(c, pc, WithoutTip(Pass(c, n).node), ds);
      } else {
        FailedPassKeepsTrack(c, pc, n, ds, Pass(c, n).node);
      }
    }
  }

  lemma PassKeepsTrack(c: Crypto, pc: seq<Block>, n: Node, ds: seq<Block>, n': Node)
    requires Tracks(c, pc, n, ds) && n.last.height + 1 in n.unprocessed
    requires n.db.commits(n.db.attempts) && n' == Pass(c, n).node
    ensures Tracks(c, pc, WithoutTip(n'), ds)
  {
    CommitKeepsTrack(c, pc, n, ds, n.unprocessed[n.last.height + 1], n');
  }

  lemma FailedPassKeepsTrack(c: Crypto, pc: seq<Block>, n: Node, ds: seq<Block>, n': Node)
    requires Tracks(c, pc, n, ds) && n.last.height + 1 in n.unprocessed
    requires !n.db.commits(n.db.attempts) && n' == Pass(c, n).node
    ensures Tracks(c, pc, n', ds)
  {
    ChildIsAccepted(c, pc, n, n.unprocessed[n.last.height + 1]);
    FailureKeepsTrack(c, pc, n, ds, n');
  }

  lemma OneWriteMore(n: Node, n': Node, r: Node)
    requires n'.db.attempts == n.db.attempts + 1 && n'.db.commits == n.db.commits && n.db.commits(n.db.attempts)
    ensures WritesCommit(n, r) <==> WritesCommit(n', r)
  {
  }

  lemma OneWriteFails(n: Node, r: Node)
    requires r.db.attempts == n.db.attempts + 1 && !n.db.commits(n.db.attempts)
    ensures !WritesCommit(n, r)
  {
    assert !n.db.commits(n.db.attempts);
  }

  /** A pass with an honest operator writes once, and meets an error exactly when that write fails. */
  lemma PassErrsOnWriteOnly(c: Crypto, pc: seq<Block>, n: Node, r: Outcome)
    requires Agrees(c, pc, n) && Linked(c, pc)
    requires n.last.height + 1 in n.unprocessed && r == Pass(c, n)
    ensures r.error.None? <==> n.db.commits(n.db.attempts)
    ensures Agrees(c, pc, r.node) && r.node.db.attempts == n.db.attempts + 1 && r.node.db.commits == n.db.commits
  {
    var block := n.unprocessed[n.last.height + 1];
    ChildIsAccepted(c, pc, n, block);
    ProcessKeepsAgreement(c, pc, n, block, r.node);
  }

  /** With an honest operator the drain meets an error exactly when one of its writes fails. */
  lemma {:induction false} DrainErrsOnWriteOnly(c: Crypto, pc: seq<Block>, n: Node)
    requires Agrees(c, pc, n) && Linked(c, pc)
    ensures Drain(c, n).error.None? <==> WritesCommit(n, Drain(c, n).node)
    decreases |n.unprocessed|
  {
    if n.last.height + 1 in n.unprocessed {
      PassErrsOnWriteOnly(c, pc, n, Pass(c, n));
      if Pass(c, n).error.None? {
        var n' := NextPass(c, pc, n);
        DrainErrsOnWriteOnly(c, pc, n');
        OneWriteMore(n, n', Drain(c, n').node);
      } else {
        OneWriteFails(n, Pass(c, n).node);
        DrainEndsInError(c, n);
      }
    } else {
      DrainEndsInGap(c, n);
    }
  }

  lemma DrainEndsInError(c: Crypto, n: Node)
    requires KeysMatch(n) && n.last.height + 1 in n.unprocessed && Pass(c, n).error.Some?
    ensures Drain(c, n) == Pass(c, n)
  {
  }

  lemma DrainEndsInGap(c: Crypto, n: Node)
    requires KeysMatch(n) && n.last.height + 1 !in n.unprocessed
    ensures Drain(c, n) == Outcome(n, None)
  {
  }

  /** The state from which the drain goes on after a pass without error. */
  lemma NextPass(c: Crypto, pc: seq<Block>, n: Node) returns (n': Node)
    requires Agrees(c, pc, n) && Linked(c, pc)
    requires n.last.height + 1 in n.unprocessed && Pass(c, n).error.None?
    ensures Agrees(c, pc, n') && |n'.unprocessed| < |n.unprocessed| && Drain(c, n) == Drain(c, n')
    ensures n'.db.attempts == n.db.attempts + 1 && n'.db.commits == n.db.commits && n.db.commits(n.db.attempts)
  {
    PassErrsOnWriteOnly(c, pc, n, Pass(c, n));
    DrainGoesOn(c, n);
    n' := WithoutTip(Pass(c, n).node);
  }

  /** A drain without error stops at the first height that was not delivered. */
  lemma DrainStopsAtFront(c: Crypto, pc: seq<Block>, n: Node, ds: seq<Block>)
    requires Tracks(c, pc, n, ds) && Drain(c, n).error.None?
    ensures Front(c, ds, Drain(c, n).node.last.height)
  {
    var d := Drain(c, n).node;
    DrainKeepsTrack(c, pc, n, ds);
    DrainStops(c, n);
    TipHeight(c, d);
    FrontIsGap(c, ds, d.last.height);
  }

  lemma DeliveredGrows(c: Crypto, ds: seq<Block>, block: Block)
    ensures forall i :: Delivered(c, ds + [block], i) <==> Delivered(c, ds, i) || (OperatorSigned(c, block) && block.height == i)
  {
    forall i
      ensures Delivered(c, ds + [block], i) <==> Delivered(c, ds, i) || (OperatorSigned(c, block) && block.height == i)
    {
      if Delivered(c, ds, i) {
        var d :| d in ds && OperatorSigned(c, d) && d.height == i;
        assert d in ds + [block];
      }
      if OperatorSigned(c, block) && block.height == i {
        assert block in ds + [block];
      }
    }
  }

  /** The event forgets its block: it is the next one after the drain, not buffered, and its write fails. */
  predicate Loses(c: Crypto, n: Node, block: Block)
    requires KeysMatch(n)
  {
    var d := Drain(c, n).node;
    && OperatorSigned(c, block)
    && block.height == d.last.height + 1
    && block.height !in d.unprocessed
    && !d.db.commits(d.db.attempts)
  }

  /** The content of a block is on the chain or in the buffer. */
  ghost predicate Keeps(n: Node, block: Block) {
    || (0 <= block.height < |n.chain| && Content(n.chain[block.height]) == Content(block))
    || (block.height in n.unprocessed && Content(n.unprocessed[block.height]) == Content(block))
  }

  lemma HeldIsKept(c: Crypto, pc: seq<Block>, n: Node, block: Block)
    requires Agrees(c, pc, n) && OperatorSigned(c, block) && Legit(c, pc, block)
    ensures Keeps(n, block) <==> block.height <= n.last.height || block.height in n.unprocessed
  {
    TipHeight(c, n);
  }

  /** A validly signed block is on the chain or buffered after its event, unless the event forgets it. */
  lemma EventLosesExactly(c: Crypto, pc: seq<Block>, n: Node, block: Block)
    requires Agrees(c, pc, n) && Linked(c, pc)
    requires OperatorSigned(c, block) && Legit(c, pc, block)
    ensures Keeps(Step(c, n, BlockEvent(block)), block) <==> !Loses(c, n, block)
  {
    var d, n' := Drain(c, n).node, Step(c, n, BlockEvent(block));
    DrainKeepsAgreement(c, pc, n);
    BlockEventKeepsAgreement(c, pc, n, block);
    HeldIsKept(c, pc, n', block);
    if block.height == d.last.height + 1 {
      ChildIsAccepted(c, pc, d, block);
    }
  }

  /** A block that is forged or not above the tip changes nothing. */
  lemma IgnoredKeepsTrack(c: Crypto, pc: seq<Block>, n: Node, ds: seq<Block>, block: Block)
    requires Tracks(c, pc, n, ds)
    requires !OperatorSigned(c, block) || block.height <= n.last.height
    requires OperatorSigned(c, block) ==> block.height > 0
    ensures DoProcessBlock(c, n, block).node == n
    ensures Tracks(c, pc, n, ds + [block])
  {
    DeliveredGrows(c, ds, block);
  }

  /** A block beyond the next height is buffered. */
  lemma BufferedKeepsTrack(c: Crypto, pc: seq<Block>, n: Node, ds: seq<Block>, block: Block, n': Node)
    requires Tracks(c, pc, n, ds) && Legit(c, pc, block) && OperatorSigned(c, block)
    requires block.height > n.last.height + 1 && n' == DoProcessBlock(c, n, block).node
    ensures n'.last == n.last && Tracks(c, pc, n', ds + [block])
  {
    DeliveredGrows(c, ds, block);
    ProcessKeepsAgreement(c, pc, n, block, n');
    assert n'.unprocessed == n.unprocessed[block.height := block];
  }

  /** The next block is ingested if the write takes effect. */
  lemma IngestedKeepsTrack(c: Crypto, pc: seq<Block>, n: Node, ds: seq<Block>, block: Block, n': Node)
    requires Tracks(c, pc, n, ds) && Legit(c, pc, block) && OperatorSigned(c, block)
    requires n.db.commits(n.db.attempts)
    requires block.height == n.last.height + 1 && n' == DoProcessBlock(c, n, block).node
    ensures n'.last == block && Tracks(c, pc, n', ds + [block])
  {
    DeliveredGrows(c, ds, block);
    ProcessKeepsAgreement(c, pc, n, block, n');
    ChildIsAccepted(c, pc, n, block);
  }

  /** If it does not, the node is as it was, but for the attempt. */
  lemma FailedKeepsTrack(c: Crypto, pc: seq<Block>, n: Node, ds: seq<Block>, block: Block, n': Node)
    requires Tracks(c, pc, n, ds) && Legit(c, pc, block) && OperatorSigned(c, block)
    requires !n.db.commits(n.db.attempts)
    requires block.height == n.last.height + 1 && n' == DoProcessBlock(c, n, block).node
    ensures n'.last == n.last && Tracks(c, pc, n', ds)
    ensures block.height in n.unprocessed ==> Tracks(c, pc, n', ds + [block])
  {
    DeliveredGrows(c, ds, block);
    ChildIsAccepted(c, pc, n, block);
    FailureKeepsTrack(c, pc, n, ds, n');
    if block.height in n.unprocessed {
      FailureKeepsTrack(c, pc, n, ds + [block], n');
    }
  }

  /** What was delivered, once the event has handled the block. */
  function DeliveredBy(c: Crypto, n: Node, ds: seq<Block>, block: Block): seq<Block>
    requires KeysMatch(n)
  {
    if Loses(c, n, block) then ds else ds + [block]
  }

  /** A drained node d handles one more block; lost tells whether the event forgets it. */
  lemma ProcessKeepsTrack(c: Crypto, pc: seq<Block>, d: Node, ds: seq<Block>, block: Block, lost: bool, n': Node)
    requires Tracks(c, pc, d, ds) && Legit(c, pc, block) && n' == DoProcessBlock(c, d, block).node
    requires lost <==> OperatorSigned(c, block) && block.height == d.last.height + 1 &&
                       block.height !in d.unprocessed && !d.db.commits(d.db.attempts)
    ensures Tracks(c, pc, n', if lost then ds else ds + [block])
    ensures n'.last.height ==
            if OperatorSigned(c, block) && block.height == d.last.height + 1 && d.db.commits(d.db.attempts)
            then block.height else d.last.height
  {
    if !OperatorSigned(c, block) || block.height <= d.last.height {
      IgnoredKeepsTrack(c, pc, d, ds, block);
    } else if block.height > d.last.height + 1 {
      BufferedKeepsTrack(c, pc, d, ds, block, n');
    } else if d.db.commits(d.db.attempts) {
      IngestedKeepsTrack(c, pc, d, ds, block, n');
    } else {
      FailedKeepsTrack(c, pc, d, ds, block, n');
    }
  }

  /** A block event keeps track of everything that was delivered and not forgotten. */
  lemma BlockEventKeepsTrack(c: Crypto, pc: seq<Block>, n: Node, ds: seq<Block>, block: Block)
    requires Tracks(c, pc, n, ds) && Legit(c, pc, block)
    ensures Tracks(c, pc, Step(c, n, BlockEvent(block)), DeliveredBy(c, n, ds, block))
  {
    DrainKeepsTrack(c, pc, n, ds);
    ProcessKeepsTrack(c, pc, Drain(c, n).node, ds, block, Loses(c, n, block), Step(c, n, BlockEvent(block)));
  }

  /**
   One block event, whose drain meets no error, at a replica that was delivered ds before: let k be the
   largest height such that blocks 1..k had been delivered. The height becomes k + 1 if the event delivers
   block k + 1 and does not forget it, and k if not.
   */
  lemma BlockEventConverges(c: Crypto, pc: seq<Block>, n: Node, ds: seq<Block>, block: Block) returns (k: nat)
    requires Tracks(c, pc, n, ds) && Legit(c, pc, block) && Drain(c, n).error.None?
    ensures Front(c, ds, k)
    ensures Step(c, n, BlockEvent(block)).last.height ==
            if OperatorSigned(c, block) && block.height == k + 1 && !Loses(c, n, block) then k + 1 else k
  {
    var d := Drain(c, n).node;
    DrainKeepsTrack(c, pc, n, ds);
    DrainStopsAtFront(c, pc, n, ds);
    DrainStops(c, n);
    k := d.last.height;
    ProcessKeepsTrack(c, pc, d, ds, block, Loses(c, n, block), Step(c, n, BlockEvent(block)));
  }

  lemma TrackSurvivesGrowth(c: Crypto, pc: seq<Block>, pc': seq<Block>, n: Node, ds: seq<Block>)
    requires Tracks(c, pc, n, ds) && pc <= pc' && Linked(c, pc')
    ensures Tracks(c, pc', n, ds)
  {
    AgreementSurvivesGrowth(c, pc, pc', n);
  }

  // ---------- Runs that lose a block or leave a stale entry ----------

  lemma RunOne(c: Crypto, n: Node, a: Event)
    requires KeysMatch(n)
    ensures Run(c, n, [a]) == Step(c, n, a)
  {
    assert [a][..0] == [];
    assert Run(c, n, []) == n;
  }

  lemma RunMore(c: Crypto, n: Node, events: seq<Event>, e: Event)
    requires KeysMatch(n)
    ensures Run(c, n, events + [e]) == Step(c, Run(c, n, events), e)
  {
    assert (events + [e])[..|events + [e]| - 1] == events;
  }

  /**
   An operator that signs two blocks for height 2 leaves a stale entry in the buffer of a replica that
   sees the one that does not link early: block 2 is ingested past it.
   */
  lemma EquivocationLeavesStaleEntry(c: Crypto, commits: nat -> bool, one: Block, two: Block, bad: Block)
    requires OperatorSigned(c, one) && OperatorSigned(c, two) && OperatorSigned(c, bad)
    requires forall i :: commits(i)
    requires Extends(c, Init(false, commits), one)
    requires two.height == 2 && two.prevBlockHash == SigHash(c, one) && BodyAccepted(c, two)
    requires bad.height == 2 && bad.prevBlockHash != SigHash(c, one)
    ensures
      var n := Run(c, Init(false, commits), [BlockEvent(bad), BlockEvent(one), BlockEvent(two)]);
      n.last == two && Stale(n, 2, bad)
  {
    var n0 := Init(false, commits);
    RunOne(c, n0, BlockEvent(bad));
    RunMore(c, n0, [BlockEvent(bad)], BlockEvent(one));
    RunMore(c, n0, [BlockEvent(bad), BlockEvent(one)], BlockEvent(two));
    assert [BlockEvent(bad)] + [BlockEvent(one)] == [BlockEvent(bad), BlockEvent(one)];
    assert [BlockEvent(bad), BlockEvent(one)] + [BlockEvent(two)] == [BlockEvent(bad), BlockEvent(one), BlockEvent(two)];
    var n1 := Step(c, n0, BlockEvent(bad));
    assert n1.unprocessed == map[2 := bad] && n1.last == GENESIS;
    var n2 := Step(c, n1, BlockEvent(one));
    assert n2.unprocessed == map[2 := bad] && n2.last == one;
    assert Pass(c, n2).error.Some?;
  }

  /**
   So does a failed write with an honest operator: the drain cannot write block 2, its entry stays, and then
   block 2 is ingested as it arrives once more.
   */
  lemma FailedWriteLeavesStaleEntry(c: Crypto, commits: nat -> bool, one: Block, two: Block)
    requires OperatorSigned(c, one) && OperatorSigned(c, two)
    requires commits(0) && !commits(1) && commits(2)
    requires Extends(c, Init(false, commits), one)
    requires two.height == 2 && two.prevBlockHash == SigHash(c, one) && BodyAccepted(c, two)
    ensures
      var n := Run(c, Init(false, commits), [BlockEvent(two), BlockEvent(one), BlockEvent(two)]);
      n.last == two && Stale(n, 2, two)
  {
    var n0 := Init(false, commits);
    RunOne(c, n0, BlockEvent(two));
    RunMore(c, n0, [BlockEvent(two)], BlockEvent(one));
    RunMore(c, n0, [BlockEvent(two), BlockEvent(one)], BlockEvent(two));
    assert [BlockEvent(two)] + [BlockEvent(one)] == [BlockEvent(two), BlockEvent(one)];
    assert [BlockEvent(two), BlockEvent(one)] + [BlockEvent(two)] == [BlockEvent(two), BlockEvent(one), BlockEvent(two)];
    var n1 := Step(c, n0, BlockEvent(two));
    assert n1.unprocessed == map[2 := two] && n1.last == GENESIS && n1.db == n0.db;
    var n2 := Step(c, n1, BlockEvent(one));
    assert n2.unprocessed == map[2 := two] && n2.last == one && n2.db.attempts == 1;
    assert Pass(c, n2).error == Some(WriteFailed) && Pass(c, n2).node.db.attempts == 2;
  }

  /** A block that arrives in order and whose write fails is forgotten: the next event does not bring it back. */
  lemma FailedWriteLosesBlock(c: Crypto, commits: nat -> bool, one: Block, forged: Block)
    requires OperatorSigned(c, one) && Extends(c, Init(false, commits), one)
    requires !commits(0) && !OperatorSigned(c, forged)
    ensures
      var n := Run(c, Init(false, commits), [BlockEvent(one), BlockEvent(forged)]);
      Contiguous(c, [one], 1) && n.last.height == 0 && n.unprocessed == map[]
  {
    var n0 := Init(false, commits);
    RunOne(c, n0, BlockEvent(one));
    RunMore(c, n0, [BlockEvent(one)], BlockEvent(forged));
    assert [BlockEvent(one)] + [BlockEvent(forged)] == [BlockEvent(one), BlockEvent(forged)];
    assert one in [one];
  }
}
