/**
 The whole system: node 0 is the primary, the others are replicas, and the network delivers any block to
 any node at any time, as often as it likes, or never. It may alter and forge blocks, but a block with
 a valid operator signature has the signature hash of a block the primary announced.
 */
module Network {
  import opened Common
  import opened Messages
  import opened Core
  import opened Chain
  import opened Replica
  import opened Acceptance

  datatype Occurrence = At(node: nat, event: Event)

  /** One node for each disk; a disk tells which of the node's transactions take effect. */
  function Start(disks: seq<nat -> bool>): seq<Node> {
    seq(|disks|, k requires 0 <= k < |disks| => Init(k == 0, disks[k]))
  }

  predicate AllKeysMatch(nodes: seq<Node>) {
    forall k :: 0 <= k < |nodes| ==> KeysMatch(nodes[k])
  }

  function Occur(c: Crypto, nodes: seq<Node>, o: Occurrence): (nodes': seq<Node>)
    requires AllKeysMatch(nodes)
    ensures AllKeysMatch(nodes') && |nodes'| == |nodes|
  {
    if o.node < |nodes| then nodes[o.node := Step(c, nodes[o.node], o.event)] else nodes
  }

  function After(c: Crypto, disks: seq<nat -> bool>, trace: seq<Occurrence>): (nodes: seq<Node>)
    ensures AllKeysMatch(nodes) && |nodes| == |disks|
  {
    if trace == [] then Start(disks)
    else Occur(c, After(c, disks, trace[..|trace| - 1]), trace[|trace| - 1])
  }

  /** A valid operator signature exists only on digests of announced blocks. */
  ghost predicate Unforged(c: Crypto, announced: seq<Block>, block: Block) {
    OperatorSigned(c, block) ==> exists x :: x in announced && SigHash(c, x) == SigHash(c, block)
  }

  ghost predicate Possible(c: Crypto, nodes: seq<Node>, o: Occurrence) {
    o.event.BlockEvent? && |nodes| > 0 ==> Unforged(c, nodes[0].announced, o.event.block)
  }

  ghost predicate PossibleTrace(c: Crypto, disks: seq<nat -> bool>, trace: seq<Occurrence>) {
    trace != [] ==>
      && PossibleTrace(c, disks, trace[..|trace| - 1])
      && Possible(c, After(c, disks, trace[..|trace| - 1]), trace[|trace| - 1])
  }

  /** The blocks delivered to node k, oldest first. */
  function Received(trace: seq<Occurrence>, k: nat): seq<Block> {
    if trace == [] then []
    else
      var o := trace[|trace| - 1];
      var before := Received(trace[..|trace| - 1], k);
      if o.node == k && o.event.BlockEvent? then before + [o.event.block] else before
  }

  // ---------- The primary ----------

  /** The primary buffers nothing, and has announced exactly its chain above genesis. */
  ghost predicate PrimaryOk(c: Crypto, p: Node) {
    Wf(c, p) && p.hasSigner && p.unprocessed == map[] && p.announced == p.chain[1..]
  }

  lemma AnnouncedIsLegit(c: Crypto, p: Node, block: Block)
    requires CollisionFree(c) && PrimaryOk(c, p) && Unforged(c, p.announced, block)
    ensures Legit(c, p.chain, block)
  {
    if OperatorSigned(c, block) {
      var x :| x in p.announced && SigHash(c, x) == SigHash(c, block);
      var i :| 0 <= i < |p.chain| - 1 && p.chain[i + 1] == x;
      HeightIsIndex(c, p.chain, i + 1);
      SameContentFields(x, block);
    }
  }

  lemma PrimaryStep(c: Crypto, p: Node, e: Event)
    requires CollisionFree(c) && PrimaryOk(c, p)
    requires e.BlockEvent? ==> Unforged(c, p.announced, e.block)
    ensures PrimaryOk(c, Step(c, p, e)) && p.chain <= Step(c, p, e).chain
  {
    StepKeepsWf(c, p, e);
    SignerNeverChanges(c, p, e);
    if e.BlockEvent? {
      AnnouncedIsLegit(c, p, e.block);
      TipHeight(c, p);
    }
  }

  // ---------- Prefix safety ----------

  ghost predicate Safe(c: Crypto, nodes: seq<Node>) {
    && |nodes| > 0
    && PrimaryOk(c, nodes[0])
    && forall k :: 0 < k < |nodes| ==> !nodes[k].hasSigner && Agrees(c, nodes[0].chain, nodes[k])
  }

  lemma StepKeepsSafe(c: Crypto, nodes: seq<Node>, o: Occurrence)
    requires CollisionFree(c) && AllKeysMatch(nodes) && Safe(c, nodes) && Possible(c, nodes, o)
    ensures Safe(c, Occur(c, nodes, o)) && nodes[0].chain <= Occur(c, nodes, o)[0].chain
  {
    var nodes' := Occur(c, nodes, o);
    if o.node == 0 {
      PrimaryStep(c, nodes[0], o.event);
      forall k | 0 < k < |nodes|
        ensures Agrees(c, nodes'[0].chain, nodes'[k])
      {
        AgreementSurvivesGrowth(c, nodes[0].chain, nodes'[0].chain, nodes[k]);
      }
    } else if o.node < |nodes| {
      SignerNeverChanges(c, nodes[o.node], o.event);
      if o.event.BlockEvent? {
        AnnouncedIsLegit(c, nodes[0], o.event.block);
        BlockEventKeepsAgreement(c, nodes[0].chain, nodes[o.node], o.event.block);
      }
    }
  }

  lemma {:induction false} EveryTraceIsSafe(c: Crypto, disks: seq<nat -> bool>, trace: seq<Occurrence>)
    requires CollisionFree(c) && |disks| > 0 && PossibleTrace(c, disks, trace)
    ensures Safe(c, After(c, disks, trace))
  {
    if trace == [] {
      forall k | 0 <= k < |disks|
        ensures Wf(c, Start(disks)[k])
      {
        InitWf(c, k == 0, disks[k]);
      }
    } else {
      EveryTraceIsSafe(c, disks, trace[..|trace| - 1]);
      StepKeepsSafe(c, After(c, disks, trace[..|trace| - 1]), trace[|trace| - 1]);
    }
  }

  /**
   Prefix safety: in every reachable state of the system each replica's chain equals a prefix of the
   primary's chain in all content except Block.Sig. Disks may fail at any write.
   */
  lemma PrefixSafety(c: Crypto, disks: seq<nat -> bool>, trace: seq<Occurrence>, k: nat)
    requires CollisionFree(c) && PossibleTrace(c, disks, trace) && k < |disks|
    ensures
      var nodes := After(c, disks, trace);
      ContentPrefix(nodes[k].chain, nodes[0].chain)
  {
    EveryTraceIsSafe(c, disks, trace);
  }

  // ---------- Convergence ----------

  /** The blocks delivered to node k by events that did not forget them, oldest first. */
  function Kept(c: Crypto, disks: seq<nat -> bool>, trace: seq<Occurrence>, k: nat): seq<Block>
    requires k < |disks|
  {
    if trace == [] then []
    else
      var o := trace[|trace| - 1];
      var before := Kept(c, disks, trace[..|trace| - 1], k);
      if o.node == k && o.event.BlockEvent? then
        DeliveredBy(c, After(c, disks, trace[..|trace| - 1])[k], before, o.event.block)
      else before
  }

  lemma OthersKeepTrack(c: Crypto, nodes: seq<Node>, o: Occurrence, k: nat, ds: seq<Block>)
    requires CollisionFree(c) && AllKeysMatch(nodes) && Safe(c, nodes) && Possible(c, nodes, o)
    requires 0 < k < |nodes| && !(o.node == k && o.event.BlockEvent?)
    requires Tracks(c, nodes[0].chain, nodes[k], ds)
    ensures Occur(c, nodes, o)[k] == nodes[k]
    ensures Tracks(c, Occur(c, nodes, o)[0].chain, nodes[k], ds)
  {
    StepKeepsSafe(c, nodes, o);
    TrackSurvivesGrowth(c, nodes[0].chain, Occur(c, nodes, o)[0].chain, nodes[k], ds);
  }

  /**
   Whatever its disk does, a replica holds on its chain or in its buffer every height that was delivered by an
   event that did not forget it, and nothing else.
   */
  lemma {:induction false} EveryTraceTracks(c: Crypto, disks: seq<nat -> bool>, trace: seq<Occurrence>, k: nat)
    requires CollisionFree(c) && PossibleTrace(c, disks, trace) && 0 < k < |disks|
    ensures
      var nodes := After(c, disks, trace);
      Safe(c, nodes) && Tracks(c, nodes[0].chain, nodes[k], Kept(c, disks, trace, k))
  {
    EveryTraceIsSafe(c, disks, trace);
    if trace != [] {
      var o := trace[|trace| - 1];
      var before := After(c, disks, trace[..|trace| - 1]);
      var ds := Kept(c, disks, trace[..|trace| - 1], k);
      EveryTraceTracks(c, disks, trace[..|trace| - 1], k);
      if o.node == k && o.event.BlockEvent? {
        AnnouncedIsLegit(c, before[0], o.event.block);
        BlockEventKeepsTrack(c, before[0].chain, before[k], ds, o.event.block);
      } else {
        OthersKeepTrack(c, before, o, k, ds);
      }
    }
  }

  /**
   Convergence: let a replica have been delivered any blocks in any order, forged ones mixed in, and let k be
   the largest height such that blocks 1..k had all been delivered by events that did not forget them. After
   one more block event of any kind whose drain meets no error its height is k + 1 if the event delivers block
   k + 1 and does not forget it, and k if not; and its chain up to there is the primary's.
   */
  lemma Convergence(c: Crypto, disks: seq<nat -> bool>, trace: seq<Occurrence>, at: nat, block: Block) returns (k: nat)
    requires CollisionFree(c) && PossibleTrace(c, disks, trace + [At(at, BlockEvent(block))]) && 0 < at < |disks|
    requires Drain(c, After(c, disks, trace)[at]).error.None?
    ensures Front(c, Kept(c, disks, trace, at), k)
    ensures
      var before := After(c, disks, trace);
      var nodes := After(c, disks, trace + [At(at, BlockEvent(block))]);
      && ContentPrefix(nodes[at].chain, nodes[0].chain)
      && |nodes[at].chain| == nodes[at].last.height + 1
      && nodes[at].last.height ==
         if OperatorSigned(c, block) && block.height == k + 1 && !Loses(c, before[at], block) then k + 1 else k
  {
    var full := trace + [At(at, BlockEvent(block))];
    assert full[..|full| - 1] == trace;
    var nodes := After(c, disks, trace);
    EveryTraceTracks(c, disks, trace, at);
    EveryTraceIsSafe(c, disks, full);
    AnnouncedIsLegit(c, nodes[0], block);
    k := BlockEventConverges(c, nodes[0].chain, nodes[at], Kept(c, disks, trace, at), block);
    assert After(c, disks, full)[at] == Step(c, nodes[at], BlockEvent(block));
    TipHeight(c, After(c, disks, full)[at]);
  }

  /** A disk on which every write takes effect. */
  ghost predicate Reliable(disk: nat -> bool) {
    forall i :: disk(i)
  }

  lemma {:induction false} DiskNeverChanges(c: Crypto, disks: seq<nat -> bool>, trace: seq<Occurrence>, k: nat)
    requires k < |disks|
    ensures After(c, disks, trace)[k].db.commits == disks[k]
  {
    if trace != [] {
      var before, o := After(c, disks, trace[..|trace| - 1]), trace[|trace| - 1];
      DiskNeverChanges(c, disks, trace[..|trace| - 1], k);
      if o.node == k {
        SignerNeverChanges(c, before[k], o.event);
      }
    }
  }

  /** On a reliable disk no drain meets an error. */
  lemma ReliableDrains(c: Crypto, disks: seq<nat -> bool>, trace: seq<Occurrence>, k: nat)
    requires CollisionFree(c) && PossibleTrace(c, disks, trace) && 0 < k < |disks| && Reliable(disks[k])
    ensures Drain(c, After(c, disks, trace)[k]).error.None?
  {
    EveryTraceTracks(c, disks, trace, k);
    DiskNeverChanges(c, disks, trace, k);
    var nodes := After(c, disks, trace);
    DrainErrsOnWriteOnly(c, nodes[0].chain, nodes[k]);
  }

  /** And no event forgets its block. */
  lemma ReliableLosesNothing(c: Crypto, disks: seq<nat -> bool>, trace: seq<Occurrence>, k: nat, block: Block)
    requires k < |disks| && Reliable(disks[k])
    ensures !Loses(c, After(c, disks, trace)[k], block)
  {
    DiskNeverChanges(c, disks, trace, k);
    DrainKeepsConfiguration(c, After(c, disks, trace)[k]);
  }

  /** So what is kept is what was received. */
  lemma {:induction false} ReliableKeepsAll(c: Crypto, disks: seq<nat -> bool>, trace: seq<Occurrence>, k: nat)
    requires k < |disks| && Reliable(disks[k])
    ensures Kept(c, disks, trace, k) == Received(trace, k)
  {
    if trace != [] {
      var o := trace[|trace| - 1];
      ReliableKeepsAll(c, disks, trace[..|trace| - 1], k);
      if o.node == k && o.event.BlockEvent? {
        ReliableLosesNothing(c, disks, trace[..|trace| - 1], k, o.event.block);
      }
    }
  }

  /** Convergence on a reliable disk: in terms of everything that was received. */
  lemma ReliableConvergence(c: Crypto, disks: seq<nat -> bool>, trace: seq<Occurrence>, at: nat, block: Block) returns (k: nat)
    requires CollisionFree(c) && PossibleTrace(c, disks, trace + [At(at, BlockEvent(block))])
    requires 0 < at < |disks| && Reliable(disks[at])
    ensures Front(c, Received(trace, at), k)
    ensures
      var nodes := After(c, disks, trace + [At(at, BlockEvent(block))]);
      && ContentPrefix(nodes[at].chain, nodes[0].chain)
      && |nodes[at].chain| == nodes[at].last.height + 1
      && nodes[at].last.height == if OperatorSigned(c, block) && block.height == k + 1 then k + 1 else k
  {
    assert (trace + [At(at, BlockEvent(block))])[..|trace|] == trace;
    ReliableDrains(c, disks, trace, at);
    ReliableKeepsAll(c, disks, trace, at);
    ReliableLosesNothing(c, disks, trace, at, block);
    k := Convergence(c, disks, trace, at, block);
  }

  // ---------- Order independence ----------

  /** The last block event at node k met no error in its drain and delivered no height that was not there. */
  ghost predicate Settled(c: Crypto, disks: seq<nat -> bool>, trace: seq<Occurrence>, k: nat)
    requires k < |disks|
  {
    && trace != []
    && var o, prefix := trace[|trace| - 1], trace[..|trace| - 1];
      if o.node == k && o.event.BlockEvent? then
        && Drain(c, After(c, disks, prefix)[k]).error.None?
        && (OperatorSigned(c, o.event.block) ==> Delivered(c, Kept(c, disks, prefix, k), o.event.block.height))
      else Settled(c, disks, prefix, k)
  }

  lemma SameFront(c: Crypto, ds: seq<Block>, es: seq<Block>, k: int)
    requires forall i :: Delivered(c, ds, i) <==> Delivered(c, es, i)
    requires Front(c, ds, k)
    ensures Front(c, es, k)
  {
    forall h | Contiguous(c, es, h)
      ensures h <= k
    {
      assert Contiguous(c, ds, h);
    }
  }

  lemma LastEventSettles(c: Crypto, disks: seq<nat -> bool>, trace: seq<Occurrence>, k: nat, block: Block)
    requires CollisionFree(c) && PossibleTrace(c, disks, trace + [At(k, BlockEvent(block))]) && 0 < k < |disks|
    requires Drain(c, After(c, disks, trace)[k]).error.None?
    requires OperatorSigned(c, block) ==> Delivered(c, Kept(c, disks, trace, k), block.height)
    ensures
      var full := trace + [At(k, BlockEvent(block))];
      Front(c, Kept(c, disks, full, k), After(c, disks, full)[k].last.height)
  {
    var full := trace + [At(k, BlockEvent(block))];
    assert full[..|full| - 1] == trace;
    var front := Convergence(c, disks, trace, k, block);
    var ds := Kept(c, disks, trace, k);
    GapIsFront(c, ds, front);
    DeliveredGrows(c, ds, block);
    SameFront(c, ds, Kept(c, disks, full, k), front);
  }

  /** A settled replica stands at the largest height up to which it has been delivered everything. */
  lemma {:induction false} SettledAtFront(c: Crypto, disks: seq<nat -> bool>, trace: seq<Occurrence>, k: nat)
    requires CollisionFree(c) && PossibleTrace(c, disks, trace) && 0 < k < |disks| && Settled(c, disks, trace, k)
    ensures Front(c, Kept(c, disks, trace, k), After(c, disks, trace)[k].last.height)
  {
    var o, prefix := trace[|trace| - 1], trace[..|trace| - 1];
    if o.node == k && o.event.BlockEvent? {
      assert trace == prefix + [At(k, BlockEvent(o.event.block))];
      LastEventSettles(c, disks, prefix, k, o.event.block);
    } else {
      SettledAtFront(c, disks, prefix, k);
      EveryTraceTracks(c, disks, prefix, k);
      OthersKeepTrack(c, After(c, disks, prefix), o, k, Kept(c, disks, prefix, k));
    }
  }

  /**
   Order independence: after any trace, two settled replicas that were delivered the same heights, in whatever
   order and number, hold the same chain up to Block.Sig.
   */
  lemma OrderIndependence(c: Crypto, disks: seq<nat -> bool>, trace: seq<Occurrence>, j: nat, k: nat)
    requires CollisionFree(c) && PossibleTrace(c, disks, trace) && 0 < j < |disks| && 0 < k < |disks|
    requires Settled(c, disks, trace, j) && Settled(c, disks, trace, k)
    requires forall i :: Delivered(c, Kept(c, disks, trace, j), i) <==> Delivered(c, Kept(c, disks, trace, k), i)
    ensures SameContent(After(c, disks, trace)[j].chain, After(c, disks, trace)[k].chain)
  {
    var nodes := After(c, disks, trace);
    SettledAtFront(c, disks, trace, j);
    SettledAtFront(c, disks, trace, k);
    SameFront(c, Kept(c, disks, trace, j), Kept(c, disks, trace, k), nodes[j].last.height);
    EveryTraceIsSafe(c, disks, trace);
    TipHeight(c, nodes[j]);
    TipHeight(c, nodes[k]);
    SamePrefixes(nodes[j].chain, nodes[k].chain, nodes[0].chain);
  }

  lemma SamePrefixes(a: seq<Block>, b: seq<Block>, pc: seq<Block>)
    requires ContentPrefix(a, pc) && ContentPrefix(b, pc) && |a| == |b|
    ensures SameContent(a, b)
  {
  }

  // ---------- Buffer bound and reads ----------

  /** No drain of node k met an error. */
  ghost predicate DrainsComplete(c: Crypto, disks: seq<nat -> bool>, trace: seq<Occurrence>, k: nat)
    requires k < |disks|
  {
    trace != [] ==>
      && DrainsComplete(c, disks, trace[..|trace| - 1], k)
      && (trace[|trace| - 1].node == k && trace[|trace| - 1].event.BlockEvent? ==>
            Drain(c, After(c, disks, trace[..|trace| - 1])[k]).error.None?)
  }

  lemma {:induction false} SignerIsNodeZero(c: Crypto, disks: seq<nat -> bool>, trace: seq<Occurrence>, k: nat)
    requires k < |disks|
    ensures After(c, disks, trace)[k].hasSigner <==> k == 0
  {
    if trace != [] {
      var before, o := After(c, disks, trace[..|trace| - 1]), trace[|trace| - 1];
      SignerIsNodeZero(c, disks, trace[..|trace| - 1], k);
      if o.node == k {
        SignerNeverChanges(c, before[k], o.event);
      }
    }
  }

  /**
   Whoever signs and whatever the network forges, everything a replica buffers lies above its tip, as long as
   its drains meet no error.
   */
  lemma {:induction false} BufferAboveTip(c: Crypto, disks: seq<nat -> bool>, trace: seq<Occurrence>, k: nat)
    requires 0 < k < |disks| && DrainsComplete(c, disks, trace, k)
    ensures BufferAbove(After(c, disks, trace)[k])
  {
    if trace != [] {
      var before, o := After(c, disks, trace[..|trace| - 1]), trace[|trace| - 1];
      BufferAboveTip(c, disks, trace[..|trace| - 1], k);
      if o.node == k {
        SignerIsNodeZero(c, disks, trace[..|trace| - 1], k);
        ReplicaStepKeepsBound(c, before[k], o.event);
      }
    }
  }

  lemma ReplicaStepKeepsBound(c: Crypto, n: Node, e: Event)
    requires KeysMatch(n) && BufferAbove(n) && !n.hasSigner
    requires e.BlockEvent? ==> Drain(c, n).error.None?
    ensures BufferAbove(Step(c, n, e))
  {
    DrainStops(c, n);
    StepKeepsBoundExactly(c, n, e);
  }

  /** With an honest operator and successful writes they never do. */
  lemma {:induction false} HonestDrainsComplete(c: Crypto, disks: seq<nat -> bool>, trace: seq<Occurrence>, k: nat)
    requires CollisionFree(c) && PossibleTrace(c, disks, trace) && 0 < k < |disks| && Reliable(disks[k])
    ensures DrainsComplete(c, disks, trace, k)
    ensures BufferAbove(After(c, disks, trace)[k])
  {
    if trace != [] {
      HonestDrainsComplete(c, disks, trace[..|trace| - 1], k);
      ReliableDrains(c, disks, trace[..|trace| - 1], k);
    }
    BufferAboveTip(c, disks, trace, k);
  }

  /** A replica's `sequence` table is a prefix of the primary's, message for message, signatures included. */
  lemma ReplicaTableIsPrefix(c: Crypto, disks: seq<nat -> bool>, trace: seq<Occurrence>, k: nat)
    requires CollisionFree(c) && PossibleTrace(c, disks, trace) && k < |disks|
    ensures
      var nodes := After(c, disks, trace);
      nodes[k].db.sequence <= nodes[0].db.sequence
  {
    EveryTraceIsSafe(c, disks, trace);
    var nodes := After(c, disks, trace);
    var n, p := nodes[k], nodes[0];
    assert ContentPrefix(n.chain, p.chain);
    forall i | 0 <= i < |n.db.sequence|
      ensures n.db.sequence[i] == p.db.sequence[i]
    {
      assert RowAt(c, n.db.sequence, n.db.blocks, n.chain, i + 1);
      assert RowAt(c, p.db.sequence, p.db.blocks, p.chain, i + 1);
      assert LinkAt(c, p.chain, i + 1);
      SameAcceptedBody(c, n.chain[i + 1], p.chain[i + 1]);
    }
  }

  /** The calls of `Sequence` at node k, in order. */
  function CallsAt(trace: seq<Occurrence>, k: nat): seq<Event> {
    if trace == [] then []
    else
      var o, before := trace[|trace| - 1], CallsAt(trace[..|trace| - 1], k);
      if o.node == k && o.event.SequenceCall? then before + [o.event] else before
  }

  /** A block from the network changes nothing at the primary. */
  lemma PrimaryIgnoresBlocks(c: Crypto, p: Node, block: Block)
    requires CollisionFree(c) && PrimaryOk(c, p) && Unforged(c, p.announced, block)
    ensures Step(c, p, BlockEvent(block)) == p
  {
    AnnouncedIsLegit(c, p, block);
    TipHeight(c, p);
    assert Drain(c, p).node == p;
  }

  lemma OneMoreCall(c: Crypto, calls: seq<Event>, e: Event)
    requires e.SequenceCall?
    ensures AcceptedOf(c, calls + [e]) ==
            if e.msg.Some? && Acceptable(c, e.msg.value, true, e.now) then AcceptedOf(c, calls) + [e.msg.value]
            else AcceptedOf(c, calls)
  {
    assert (calls + [e])[..|calls|] == calls;
  }

  /**
   In every reachable state of the system the primary's `sequence` table is exactly the accepted messages
   whose write took effect, in the order of the calls, whatever the network delivered to it.
   */
  lemma {:induction false} PrimaryTableIsTheCalls(c: Crypto, disks: seq<nat -> bool>, trace: seq<Occurrence>)
    requires CollisionFree(c) && |disks| > 0 && PossibleTrace(c, disks, trace)
    ensures After(c, disks, trace)[0].hasSigner && After(c, disks, trace)[0].db.commits == disks[0]
    ensures TableOf(After(c, disks, trace)[0], AcceptedOf(c, CallsAt(trace, 0)))
  {
    if trace != [] {
      var o, prefix := trace[|trace| - 1], trace[..|trace| - 1];
      PrimaryTableIsTheCalls(c, disks, prefix);
      EveryTraceIsSafe(c, disks, prefix);
      if o.node == 0 {
        OccurrenceKeepsTable(c, After(c, disks, prefix)[0], o.event, CallsAt(prefix, 0));
      }
    }
  }

  lemma OccurrenceKeepsTable(c: Crypto, p: Node, e: Event, calls: seq<Event>)
    requires CollisionFree(c) && PrimaryOk(c, p) && TableOf(p, AcceptedOf(c, calls))
    requires e.BlockEvent? ==> Unforged(c, p.announced, e.block)
    ensures Step(c, p, e).hasSigner && Step(c, p, e).db.commits == p.db.commits
    ensures TableOf(Step(c, p, e), AcceptedOf(c, if e.SequenceCall? then calls + [e] else calls))
  {
    match e
    case BlockEvent(block) =>
      PrimaryIgnoresBlocks(c, p, block);
    case SequenceCall(msg, now) =>
      SequenceExactly(c, p, msg, now);
      CallKeepsTable(c, p, msg, now, AcceptedOf(c, calls));
      OneMoreCall(c, calls, e);
  }

  /** So what a replica serves is a prefix of what was accepted and written at the primary. */
  lemma ReplicaServesTheCalls(c: Crypto, disks: seq<nat -> bool>, trace: seq<Occurrence>, k: nat)
    requires CollisionFree(c) && PossibleTrace(c, disks, trace) && k < |disks|
    ensures After(c, disks, trace)[k].db.sequence <= CommittedOf(AcceptedOf(c, CallsAt(trace, 0)), disks[0])
  {
    ReplicaTableIsPrefix(c, disks, trace, k);
    PrimaryTableIsTheCalls(c, disks, trace);
  }

  /** A replica and the primary answer `Get` alike for any upper bound not above the replica's height. */
  lemma ReplicaAnswersLikePrimary(c: Crypto, disks: seq<nat -> bool>, trace: seq<Occurrence>, k: nat, from: nat, to: nat)
    requires CollisionFree(c) && PossibleTrace(c, disks, trace) && k < |disks|
    requires to <= After(c, disks, trace)[k].last.height
    ensures
      var nodes := After(c, disks, trace);
      RowsInRange(nodes[k].db.sequence, from, to) == RowsInRange(nodes[0].db.sequence, from, to)
  {
    ReplicaTableIsPrefix(c, disks, trace, k);
    EveryTraceIsSafe(c, disks, trace);
    TipHeight(c, After(c, disks, trace)[k]);
    RowsOfPrefix(After(c, disks, trace)[k].db.sequence, After(c, disks, trace)[0].db.sequence, from, to);
  }

  lemma RowsOfPrefix(rows: seq<SequenceTx>, table: seq<SequenceTx>, from: nat, to: nat)
    requires rows <= table && to <= |rows|
    ensures RowsInRange(rows, from, to) == RowsInRange(table, from, to)
  {
  }
}
