/**
 What every event keeps, whoever signs: the chain is contiguous and hash-linked, both tables agree
 with it, and what is buffered was signed by the operator. From this follow tip binding and
 accountability, neither of which assumes an honest operator.
 */
module Chain {
  import opened Common
  import opened Messages
  import opened Core

  /** Block i has height i, an acceptable body, and points at the hash of block i - 1. */
  ghost predicate LinkAt(c: Crypto, chain: seq<Block>, i: int)
    requires 0 < i < |chain|
  {
    chain[i].height == i && chain[i].prevBlockHash == SigHash(c, chain[i - 1]) && BodyAccepted(c, chain[i])
  }

  /** A chain from genesis. */
  ghost predicate Linked(c: Crypto, chain: seq<Block>) {
    && |chain| > 0
    && chain[0] == GENESIS
    && forall i :: 0 < i < |chain| ==> LinkAt(c, chain, i)
  }

  /** Row number i of both tables belongs to block i of the chain. */
  ghost predicate RowAt(c: Crypto, sequence: seq<SequenceTx>, blocks: seq<BlockRow>, chain: seq<Block>, i: int)
    requires |sequence| == |blocks| == |chain| - 1 && 0 < i < |chain|
  {
    && chain[i].body == Some(sequence[i - 1])
    && blocks[i - 1] == BlockRow(chain[i], SigHash(c, chain[i]))
  }

  lemma HeightIsIndex(c: Crypto, chain: seq<Block>, i: nat)
    requires Linked(c, chain) && i < |chain|
    ensures chain[i].height == i
  {
    if i > 0 {
      assert LinkAt(c, chain, i);
    }
  }

  ghost predicate TablesAgree(c: Crypto, sequence: seq<SequenceTx>, blocks: seq<BlockRow>, chain: seq<Block>) {
    && |sequence| == |blocks| == |chain| - 1
    && forall i :: 0 < i < |chain| ==> RowAt(c, sequence, blocks, chain, i)
  }

  ghost predicate Wf(c: Crypto, n: Node) {
    && Linked(c, n.chain)
    && n.last == n.chain[|n.chain| - 1]
    && TablesAgree(c, n.db.sequence, n.db.blocks, n.chain)
    && KeysMatch(n)
    && (forall h :: h in n.unprocessed ==> OperatorSigned(c, n.unprocessed[h]))
  }

  /** Every block above genesis carries a valid operator signature. */
  ghost predicate ChainSigned(c: Crypto, chain: seq<Block>) {
    forall i :: 0 < i < |chain| ==> OperatorSigned(c, chain[i])
  }

  lemma InitWf(c: Crypto, hasSigner: bool, commits: nat -> bool)
    ensures Wf(c, Init(hasSigner, commits))
    ensures ChainSigned(c, Init(hasSigner, commits).chain)
  {
  }

  // ---------- Single operations ----------

  /** A message `Sequence` accepts at any time stays acceptable to replicas for ever. */
  lemma {:induction false} ExpiryDoesNotMatterToReplicas(expires: seq<ExpiryCondition>, now: nat, later: nat)
    requires CheckExpiry(expires, true, now).None?
    ensures CheckExpiry(expires, false, later).None?
  {
    if expires != [] {
      ExpiryDoesNotMatterToReplicas(expires[1..], now, later);
    }
  }

  lemma {:induction false} UncheckedExpiryIgnoresTime(expires: seq<ExpiryCondition>, now: nat, later: nat)
    ensures CheckExpiry(expires, false, now) == CheckExpiry(expires, false, later)
  {
    if expires != [] {
      UncheckedExpiryIgnoresTime(expires[1..], now, later);
    }
  }

  lemma SequencedBlockIsOperatorSigned(c: Crypto, n: Node, msg: SequenceTx)
    requires SignerIsOperator(c)
    ensures OperatorSigned(c, SequencedBlock(c, n, msg))
  {
    var block := SequencedBlock(c, n, msg);
    var digest := SigHash(c, block);
    SigningKeepsSigHash(c, ConstructBlock(msg).(height := n.last.height + 1, prevBlockHash := SigHash(c, n.last)));
    assert block.sig == Some(c.sign(digest));
    assert c.ecrecover(digest, block.sig.value) == Some(c.operatorPubkey);
    assert |block.sig.value| == SIGNATURE_LENGTH;
  }

  /** A block extends a chain: right height, right link, acceptable body. */
  ghost predicate Extends(c: Crypto, n: Node, block: Block) {
    && block.height == n.last.height + 1
    && block.prevBlockHash == SigHash(c, n.last)
    && BodyAccepted(c, block)
  }

  lemma CommitKeepsWf(c: Crypto, n: Node, block: Block)
    requires Wf(c, n) && Extends(c, n, block)
    ensures Wf(c, Commit(c, n, block).node)
    ensures OperatorSigned(c, block) && ChainSigned(c, n.chain) ==> ChainSigned(c, Commit(c, n, block).node.chain)
  {
    var n' := Commit(c, n, block).node;
    if n'.chain != n.chain {
      LinkOneMore(c, n.chain, block);
      RowOneMore(c, n.db.sequence, n.db.blocks, n.chain, block);
    }
  }

  lemma LinkOneMore(c: Crypto, chain: seq<Block>, block: Block)
    requires Linked(c, chain) && BodyAccepted(c, block)
    requires block.height == chain[|chain| - 1].height + 1 && block.prevBlockHash == SigHash(c, chain[|chain| - 1])
    ensures Linked(c, chain + [block])
  {
    HeightIsIndex(c, chain, |chain| - 1);
    forall i | 0 < i < |chain| + 1
      ensures LinkAt(c, chain + [block], i)
    {
      assert i < |chain| ==> LinkAt(c, chain, i);
    }
  }

  lemma RowOneMore(c: Crypto, sequence: seq<SequenceTx>, blocks: seq<BlockRow>, chain: seq<Block>, block: Block)
    requires TablesAgree(c, sequence, blocks, chain) && block.body.Some?
    ensures TablesAgree(c, sequence + [block.body.value], blocks + [BlockRow(block, SigHash(c, block))], chain + [block])
  {
    var sequence', blocks' := sequence + [block.body.value], blocks + [BlockRow(block, SigHash(c, block))];
    forall i | 0 < i < |chain| + 1
      ensures RowAt(c, sequence', blocks', chain + [block], i)
    {
      assert i < |chain| ==> RowAt(c, sequence, blocks, chain, i);
    }
  }

  lemma ProcessKeepsWf(c: Crypto, n: Node, block: Block)
    requires Wf(c, n)
    ensures Wf(c, DoProcessBlock(c, n, block).node)
    ensures ChainSigned(c, n.chain) ==> ChainSigned(c, DoProcessBlock(c, n, block).node.chain)
  {
    var seen, n' := n.(totalSeen := n.totalSeen + 1), DoProcessBlock(c, n, block).node;
    ProcessCases(c, n, block, n');
    if n'.chain != n.chain {
      CommitKeepsWf(c, seen, block);
    } else {
      BufferKeepsWf(c, n, block, n');
    }
  }

  /** What processing a block does to a node: it may be buffered or committed; otherwise it is only counted. */
  lemma ProcessCases(c: Crypto, n: Node, block: Block, n': Node)
    requires n' == DoProcessBlock(c, n, block).node
    ensures
      var seen := n.(totalSeen := n.totalSeen + 1);
      if n'.chain != n.chain then
        OperatorSigned(c, block) && Extends(c, n, block) && n' == Commit(c, seen, block).node
      else
        && n'.last == n.last && n'.db.sequence == n.db.sequence && n'.db.blocks == n.db.blocks
        && (|| n'.unprocessed == n.unprocessed
            || (OperatorSigned(c, block) && n.last.height + 1 < block.height &&
                n'.unprocessed == n.unprocessed[block.height := block]))
  {
  }

  lemma BufferKeepsWf(c: Crypto, n: Node, block: Block, n': Node)
    requires Wf(c, n) && n'.chain == n.chain && n'.last == n.last
    requires n'.db.sequence == n.db.sequence && n'.db.blocks == n.db.blocks
    requires n'.unprocessed == n.unprocessed ||
             (OperatorSigned(c, block) && n'.unprocessed == n.unprocessed[block.height := block])
    ensures Wf(c, n')
  {
  }

  lemma {:induction false} DrainKeepsWf(c: Crypto, n: Node)
    requires Wf(c, n)
    ensures Wf(c, Drain(c, n).node)
    ensures ChainSigned(c, n.chain) ==> ChainSigned(c, Drain(c, n).node.chain)
    decreases |n.unprocessed|
  {
    if n.last.height + 1 in n.unprocessed {
      ProcessKeepsWf(c, n, n.unprocessed[n.last.height + 1]);
      if Pass(c, n).error.None? {
        SuccessfulPass(c, n);
        DrainKeepsWf(c, WithoutTip(Pass(c, n).node));
      }
    }
  }

  /** What a drain that took n to r did to the buffer: exactly the entries of the heights gained are gone. */
  ghost predicate Drained(n: Node, r: Node) {
    && n.last.height <= r.last.height
    && (forall h :: n.last.height < h <= r.last.height ==> h in n.unprocessed)
    && (forall h :: h in r.unprocessed <==> h in n.unprocessed && !(n.last.height < h <= r.last.height))
    && (forall h :: h in r.unprocessed ==> r.unprocessed[h] == n.unprocessed[h])
  }

  /**
   The drain under any operator: each successful pass advances the height by one and removes exactly
   the entry it used.
   */
  lemma {:induction false} DrainPasses(c: Crypto, n: Node)
    requires KeysMatch(n)
    ensures Drained(n, Drain(c, n).node)
    decreases |n.unprocessed|
  {
    if n.last.height + 1 in n.unprocessed && Pass(c, n).error.None? {
      SuccessfulPass(c, n);
      var smaller := WithoutTip(Pass(c, n).node);
      DrainPasses(c, smaller);
      DrainedFirst(n, smaller, Drain(c, smaller).node);
    } else {
      RejectedPass(c, n);
    }
  }

  /**
   The drain stops because the next height is missing or because its entry was rejected, and then the
   rejected entry stays.
   */
  lemma {:induction false} DrainStops(c: Crypto, n: Node)
    requires KeysMatch(n)
    ensures Drain(c, n).error.None? <==> Drain(c, n).node.last.height + 1 !in Drain(c, n).node.unprocessed
    decreases |n.unprocessed|
  {
    if n.last.height + 1 in n.unprocessed && Pass(c, n).error.None? {
      DrainGoesOn(c, n);
      DrainStops(c, WithoutTip(Pass(c, n).node));
    } else {
      RejectedPass(c, n);
    }
  }

  lemma RejectedPass(c: Crypto, n: Node)
    requires KeysMatch(n)
    requires n.last.height + 1 in n.unprocessed ==> Pass(c, n).error.Some?
    ensures Drain(c, n).node.unprocessed == n.unprocessed && Drain(c, n).node.last == n.last
    ensures Drain(c, n).error.None? <==> n.last.height + 1 !in n.unprocessed
  {
  }

  lemma DrainedFirst(n: Node, smaller: Node, r: Node)
    requires n.last.height + 1 in n.unprocessed && smaller.last.height == n.last.height + 1
    requires smaller.unprocessed == n.unprocessed - {n.last.height + 1}
    requires Drained(smaller, r)
    ensures Drained(n, r)
  {
    forall h | n.last.height < h <= r.last.height
      ensures h in n.unprocessed
    {
      if h != n.last.height + 1 {
        assert h in smaller.unprocessed;
      }
    }
  }

  lemma StepKeepsWf(c: Crypto, n: Node, e: Event)
    requires Wf(c, n)
    ensures Wf(c, Step(c, n, e))
    ensures ChainSigned(c, n.chain) && (SignerIsOperator(c) || !n.hasSigner) ==> ChainSigned(c, Step(c, n, e).chain)
  {
    match e
    case BlockEvent(block) =>
      DrainKeepsWf(c, n);
      ProcessKeepsWf(c, Drain(c, n).node, block);
    case SequenceCall(msg, now) =>
      if SequenceCheck(c, n, msg, now).None? {
        var block := SequencedBlock(c, n, msg.value);
        ExpiryDoesNotMatterToReplicas(msg.value.expires, now, 0);
        assert BodyAccepted(c, block);
        if SignerIsOperator(c) {
          SequencedBlockIsOperatorSigned(c, n, msg.value);
        }
        CommitKeepsWf(c, n, block);
      }
  }

  lemma SignerNeverChanges(c: Crypto, n: Node, e: Event)
    requires KeysMatch(n)
    ensures Step(c, n, e).hasSigner == n.hasSigner
    ensures Step(c, n, e).db.commits == n.db.commits
  {
    DrainKeepsConfiguration(c, n);
  }

  lemma {:induction false} DrainKeepsConfiguration(c: Crypto, n: Node)
    requires KeysMatch(n)
    ensures var d := Drain(c, n).node;
      d.hasSigner == n.hasSigner && d.db.commits == n.db.commits && d.announced == n.announced
    decreases |n.unprocessed|
  {
    if n.last.height + 1 in n.unprocessed && Pass(c, n).error.None? {
      DrainGoesOn(c, n);
      DrainKeepsConfiguration(c, WithoutTip(Pass(c, n).node));
    }
  }

  // ---------- Whole runs ----------

  lemma {:induction false} RunKeepsWf(c: Crypto, n: Node, events: seq<Event>)
    requires Wf(c, n)
    ensures Wf(c, Run(c, n, events))
    ensures Run(c, n, events).hasSigner == n.hasSigner
    ensures Run(c, n, events).db.commits == n.db.commits
    ensures ChainSigned(c, n.chain) && (SignerIsOperator(c) || !n.hasSigner) ==> ChainSigned(c, Run(c, n, events).chain)
  {
    if events != [] {
      var before := Run(c, n, events[..|events| - 1]);
      RunKeepsWf(c, n, events[..|events| - 1]);
      StepKeepsWf(c, before, events[|events| - 1]);
      SignerNeverChanges(c, before, events[|events| - 1]);
    }
  }

  /** A node that started from genesis on an empty database and handled some events. */
  ghost predicate Reachable(c: Crypto, n: Node) {
    exists hasSigner, commits, events :: n == Run(c, Init(hasSigner, commits), events)
  }

  lemma ReachableIsWf(c: Crypto, n: Node)
    requires Reachable(c, n)
    ensures Wf(c, n)
    ensures SignerIsOperator(c) || !n.hasSigner ==> ChainSigned(c, n.chain)
  {
    var hasSigner, commits, events :| n == Run(c, Init(hasSigner, commits), events);
    InitWf(c, hasSigner, commits);
    RunKeepsWf(c, Init(hasSigner, commits), events);
  }

  /**
   The tables of a reachable node: as many rows as the height, and row n is the body of, and the
   block at, height n. Failed writes and any mix of events are allowed.
   */
  lemma TablesAgreeWithChain(c: Crypto, n: Node)
    requires Reachable(c, n)
    ensures |n.chain| == n.last.height + 1 && |n.db.sequence| == |n.db.blocks| == n.last.height
    ensures forall num :: 1 <= num <= n.last.height ==>
              && n.chain[num].height == num
              && n.chain[num].body == Some(n.db.sequence[num - 1])
              && n.db.blocks[num - 1] == BlockRow(n.chain[num], SigHash(c, n.chain[num]))
  {
    ReachableIsWf(c, n);
    HeightIsIndex(c, n.chain, |n.chain| - 1);
    forall num | 1 <= num <= n.last.height
      ensures && n.chain[num].height == num
              && n.chain[num].body == Some(n.db.sequence[num - 1])
              && n.db.blocks[num - 1] == BlockRow(n.chain[num], SigHash(c, n.chain[num]))
    {
      assert LinkAt(c, n.chain, num) && RowAt(c, n.db.sequence, n.db.blocks, n.chain, num);
    }
  }

  /** The row numbers a range query answers with: from first to last, if that is not empty. */
  lemma RowsAreASlice(sequence: seq<SequenceTx>, from: nat, to: nat, first: nat, last: nat)
    requires first == (if from == 0 then 1 else from) && last == (if to <= |sequence| then to else |sequence|)
    ensures |RowsInRange(sequence, from, to)| == if first <= last then last - first + 1 else 0
    ensures forall i :: 0 <= i < |RowsInRange(sequence, from, to)| ==>
              RowsInRange(sequence, from, to)[i] == sequence[first + i - 1]
  {
  }

  /** `Get(from, to)` on a reachable node is the chain's bodies at heights from..to, as far as they exist. */
  lemma GetReadsTheChain(c: Crypto, n: Node, from: nat, to: nat, first: nat, last: nat)
    requires Reachable(c, n)
    requires first == (if from == 0 then 1 else from) && last == (if to <= n.last.height then to else n.last.height)
    ensures
      var rows := RowsInRange(n.db.sequence, from, to);
      && |rows| == (if first <= last then last - first + 1 else 0)
      && forall i :: 0 <= i < |rows| ==> 0 < first + i < |n.chain| && n.chain[first + i].body == Some(rows[i])
  {
    TablesAgreeWithChain(c, n);
    RowsAreASlice(n.db.sequence, from, to, first, last);
  }

  /** An entry of the buffer at or below the tip. */
  ghost predicate Stale(n: Node, h: int, entry: Block) {
    h <= n.last.height && h in n.unprocessed && n.unprocessed[h] == entry
  }

  lemma ProcessKeepsStale(c: Crypto, n: Node, block: Block, h: int, entry: Block)
    requires Stale(n, h, entry)
    ensures Stale(DoProcessBlock(c, n, block).node, h, entry)
  {
  }

  lemma StepKeepsStale(c: Crypto, n: Node, e: Event, h: int, entry: Block)
    requires KeysMatch(n) && Stale(n, h, entry)
    ensures Stale(Step(c, n, e), h, entry)
  {
    match e
    case BlockEvent(block) =>
      DrainPasses(c, n);
      ProcessKeepsStale(c, Drain(c, n).node, block, h, entry);
    case SequenceCall(msg, now) =>
  }

  /** A stale entry is never used, replaced or removed, whatever happens afterwards. */
  lemma {:induction false} StaleEntryStaysForEver(c: Crypto, n: Node, events: seq<Event>, h: int, entry: Block)
    requires KeysMatch(n) && Stale(n, h, entry)
    ensures Stale(Run(c, n, events), h, entry)
  {
    if events != [] {
      StaleEntryStaysForEver(c, n, events[..|events| - 1], h, entry);
      StepKeepsStale(c, Run(c, n, events[..|events| - 1]), events[|events| - 1], h, entry);
    }
  }

  // ---------- The buffer bound ----------

  ghost predicate BufferAbove(n: Node) {
    forall h :: h in n.unprocessed ==> h > n.last.height
  }

  /**
   The event would move the tip past a height that is buffered. The drain leaves an entry for the next height,
   and the block that arrives has that height, passes every check, and its write takes effect; or a primary
   sequences a height for which it has an entry.
   */
  predicate Overtakes(c: Crypto, n: Node, e: Event)
    requires KeysMatch(n)
  {
    match e
    case BlockEvent(block) =>
      var d := Drain(c, n).node;
      d.last.height + 1 in d.unprocessed && Ingests(c, d, block)
    case SequenceCall(msg, now) =>
      n.last.height + 1 in n.unprocessed && SequenceCheck(c, n, msg, now).None? && n.db.commits(n.db.attempts)
  }

  /** The guards on the way to a new tip: signature, height, link, body, and the write. */
  predicate Ingests(c: Crypto, d: Node, block: Block) {
    && OperatorSigned(c, block)
    && block.height == d.last.height + 1
    && block.prevBlockHash == SigHash(c, d.last)
    && BodyAccepted(c, block)
    && d.db.commits(d.db.attempts)
  }

  /** They decide whether the tip moves. */
  lemma IngestsExactly(c: Crypto, d: Node, block: Block, n': Node)
    requires n' == DoProcessBlock(c, d, block).node
    ensures n'.last.height == if Ingests(c, d, block) then d.last.height + 1 else d.last.height
    ensures Ingests(c, d, block) ==> n'.unprocessed == d.unprocessed
    ensures n'.unprocessed == d.unprocessed ||
            (block.height > d.last.height + 1 && n'.unprocessed == d.unprocessed[block.height := block])
  {
  }

  lemma DrainKeepsBound(c: Crypto, n: Node)
    requires KeysMatch(n) && BufferAbove(n)
    ensures BufferAbove(Drain(c, n).node)
  {
    DrainPasses(c, n);
  }

  lemma ProcessKeepsBound(c: Crypto, d: Node, block: Block, n': Node)
    requires BufferAbove(d) && n' == DoProcessBlock(c, d, block).node
    ensures BufferAbove(n') <==> !(d.last.height + 1 in d.unprocessed && Ingests(c, d, block))
  {
    IngestsExactly(c, d, block, n');
  }

  /** Under any operator and any disk, an event keeps the buffer above the tip if and only if it overtakes nothing. */
  lemma StepKeepsBoundExactly(c: Crypto, n: Node, e: Event)
    requires KeysMatch(n) && BufferAbove(n)
    ensures BufferAbove(Step(c, n, e)) <==> !Overtakes(c, n, e)
  {
    match e
    case BlockEvent(block) =>
      DrainKeepsBound(c, n);
      ProcessKeepsBound(c, Drain(c, n).node, block, Step(c, n, e));
    case SequenceCall(msg, now) =>
      SequenceMovesTip(c, n, msg, now, Step(c, n, e));
  }

  lemma SequenceMovesTip(c: Crypto, n: Node, msg: Option<SequenceTx>, now: nat, n': Node)
    requires KeysMatch(n) && n' == Step(c, n, SequenceCall(msg, now))
    ensures n'.unprocessed == n.unprocessed
    ensures n'.last.height ==
            if SequenceCheck(c, n, msg, now).None? && n.db.commits(n.db.attempts) then n.last.height + 1 else n.last.height
  {
  }

  ghost predicate NeverOvertakes(c: Crypto, n: Node, events: seq<Event>)
    requires KeysMatch(n)
  {
    events != [] ==>
      && NeverOvertakes(c, n, events[..|events| - 1])
      && !Overtakes(c, Run(c, n, events[..|events| - 1]), events[|events| - 1])
  }

  lemma StepKeepsBoundBroken(c: Crypto, n: Node, e: Event)
    requires KeysMatch(n) && !BufferAbove(n)
    ensures !BufferAbove(Step(c, n, e))
  {
    var h :| h in n.unprocessed && h <= n.last.height;
    StepKeepsStale(c, n, e, h, n.unprocessed[h]);
  }

  /**
   The buffer bound over whole runs, under any operator and any disk: every buffered height exceeds the tip
   after the run if and only if no event of the run overtook a buffered height.
   */
  lemma {:induction false} BufferBoundExactly(c: Crypto, n: Node, events: seq<Event>)
    requires KeysMatch(n) && BufferAbove(n)
    ensures BufferAbove(Run(c, n, events)) <==> NeverOvertakes(c, n, events)
  {
    if events != [] {
      var before, e := Run(c, n, events[..|events| - 1]), events[|events| - 1];
      BufferBoundExactly(c, n, events[..|events| - 1]);
      if BufferAbove(before) {
        StepKeepsBoundExactly(c, before, e);
      } else {
        StepKeepsBoundBroken(c, before, e);
      }
    }
  }

  ghost predicate SameContent(a: seq<Block>, b: seq<Block>) {
    |a| == |b| && forall i :: 0 <= i < |a| ==> Content(a[i]) == Content(b[i])
  }

  lemma SameContentFields(a: Block, b: Block)
    requires Content(a) == Content(b)
    ensures a.height == b.height && a.prevBlockHash == b.prevBlockHash && (a.body.Some? <==> b.body.Some?)
  {
    assert Content(a).height == a.height && Content(b).height == b.height;
    assert Content(a).prevBlockHash == a.prevBlockHash && Content(b).prevBlockHash == b.prevBlockHash;
  }

  /** Walk two chains down from equal hashes: they agree below, or two of their blocks collide. */
  lemma {:induction false} EqualHashesBindPrefixes(c: Crypto, a: seq<Block>, b: seq<Block>, i: nat, j: nat)
    requires Linked(c, a) && Linked(c, b)
    requires i < |a| && j < |b| && SigHash(c, a[i]) == SigHash(c, b[j])
    ensures (i == j && SameContent(a[..i + 1], b[..j + 1])) || (exists x, y :: x in a && y in b && Collide(c, x, y))
    decreases i
  {
    if Content(a[i]) != Content(b[j]) {
      assert a[i] in a && b[j] in b && Collide(c, a[i], b[j]);
    } else {
      HeightIsIndex(c, a, i);
      HeightIsIndex(c, b, j);
      SameContentFields(a[i], b[j]);
      if i > 0 {
        assert LinkAt(c, a, i) && LinkAt(c, b, j);
        EqualHashesBindPrefixes(c, a, b, i - 1, j - 1);
        if SameContent(a[..i], b[..j]) {
          assert a[..i + 1] == a[..i] + [a[i]] && b[..j + 1] == b[..j] + [b[j]];
        }
      }
    }
  }

  /**
   Tip binding: two reachable nodes whose last blocks have the same hash hold the same whole chain
   up to Block.Sig, or their chains contain a hash collision.
   */
  lemma TipBinding(c: Crypto, m: Node, n: Node)
    requires Reachable(c, m) && Reachable(c, n)
    requires SigHash(c, m.last) == SigHash(c, n.last)
    ensures SameContent(m.chain, n.chain) || (exists x, y :: x in m.chain && y in n.chain && Collide(c, x, y))
  {
    ReachableIsWf(c, m);
    ReachableIsWf(c, n);
    EqualHashesBindPrefixes(c, m.chain, n.chain, |m.chain| - 1, |n.chain| - 1);
    assert m.chain[..|m.chain|] == m.chain && n.chain[..|n.chain|] == n.chain;
  }

  /**
   Accountability: if two replicas disagree at some height then there is a least such height, and
   there they hold two different contents for the same height and the same previous hash, both
   with valid operator signatures. Nothing is assumed about the operator, the network or the hash.
   */
  lemma Accountability(c: Crypto, m: Node, n: Node, at: nat) returns (h: nat)
    requires Reachable(c, m) && Reachable(c, n) && !m.hasSigner && !n.hasSigner
    requires at < |m.chain| && at < |n.chain| && Content(m.chain[at]) != Content(n.chain[at])
    ensures 1 <= h <= at
    ensures forall i :: 0 <= i < h ==> Content(m.chain[i]) == Content(n.chain[i])
    ensures Content(m.chain[h]) != Content(n.chain[h])
    ensures m.chain[h].height == n.chain[h].height == h
    ensures m.chain[h].prevBlockHash == n.chain[h].prevBlockHash
    ensures OperatorSigned(c, m.chain[h]) && OperatorSigned(c, n.chain[h])
    ensures SignedBy(c, c.operatorPubkey, SigHash(c, m.chain[h]), m.chain[h].sig)
    ensures SignedBy(c, c.operatorPubkey, SigHash(c, n.chain[h]), n.chain[h].sig)
  {
    ReachableIsWf(c, m);
    ReachableIsWf(c, n);
    h := LeastDifference(m.chain, n.chain, at);
    DifferenceAt(c, m.chain, n.chain, h);
  }

  /** Two signed chains that agree below h and differ at h hold two signed contents for one place. */
  lemma DifferenceAt(c: Crypto, a: seq<Block>, b: seq<Block>, h: nat)
    requires Linked(c, a) && Linked(c, b) && ChainSigned(c, a) && ChainSigned(c, b)
    requires h < |a| && h < |b| && Content(a[h]) != Content(b[h])
    requires forall i :: 0 <= i < h ==> Content(a[i]) == Content(b[i])
    ensures h >= 1 && a[h].height == b[h].height == h && a[h].prevBlockHash == b[h].prevBlockHash
    ensures OperatorSigned(c, a[h]) && OperatorSigned(c, b[h])
    ensures SignedBy(c, c.operatorPubkey, SigHash(c, a[h]), a[h].sig)
    ensures SignedBy(c, c.operatorPubkey, SigHash(c, b[h]), b[h].sig)
  {
    assert h >= 1;
    assert LinkAt(c, a, h) && LinkAt(c, b, h);
    assert Content(a[h - 1]) == Content(b[h - 1]);
  }

  lemma LeastDifference(a: seq<Block>, b: seq<Block>, at: nat) returns (h: nat)
    requires at < |a| && at < |b| && Content(a[at]) != Content(b[at])
    ensures h <= at && Content(a[h]) != Content(b[h])
    ensures forall i :: 0 <= i < h ==> Content(a[i]) == Content(b[i])
  {
    h := 0;
    while Content(a[h]) == Content(b[h])
      invariant h <= at
      invariant forall i :: 0 <= i < h ==> Content(a[i]) == Content(b[i])
      decreases at - h
    {
      h := h + 1;
    }
  }
}
