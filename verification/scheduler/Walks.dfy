/**
 The breadth-first walk of the executer: a queue without a visited set. Popping a node executes its
 children in sub-batches and queues them. The barrier is the intended one: a sub-batch finishes before
 the next one starts, and the transactions of a sub-batch run at the same time.
 */
module Walks {
  import opened Graphs

  /** The queue, and the sub-batches executed so far. */
  datatype Walk = Walk(toVisit: seq<nat>, executed: seq<seq<nat>>)

  const START := Walk([ROOT], [])

  function Min(a: nat, b: nat): nat {
    if a < b then a else b
  }

  /** Sub-batch i: the source executes 100 transactions at a time. */
  function SubBatch(batch: seq<nat>, i: nat): seq<nat>
    requires 100 * i <= |batch|
  {
    batch[100 * i..Min(100 * i + 100, |batch|)]
  }

  /** The first n sub-batches. */
  function FirstBatches(batch: seq<nat>, n: nat): seq<seq<nat>>
    requires 100 * n <= |batch| + 100
  {
    if n == 0 then [] else FirstBatches(batch, n - 1) + [SubBatch(batch, n - 1)]
  }

  function BatchCount(batch: seq<nat>): (n: nat)
    ensures |batch| < 100 * n <= |batch| + 100
  {
    |batch| / 100 + 1
  }

  function SubBatches(batch: seq<nat>): seq<seq<nat>> {
    if batch == [] then [] else FirstBatches(batch, BatchCount(batch))
  }

  /** One iteration of the queue loop. */
  function Visit(edges: seq<Edge>, w: Walk): Walk
    requires w.toVisit != []
  {
    var children := Children(edges, w.toVisit[0]);
    Walk(w.toVisit[1..] + children, w.executed + SubBatches(children))
  }

  /** At most k iterations. */
  function Iterate(edges: seq<Edge>, w: Walk, k: nat): Walk
    decreases k
  {
    if k == 0 || w.toVisit == [] then w else Iterate(edges, Visit(edges, w), k - 1)
  }

  /** The walk from the root ends with these sub-batches executed. */
  ghost predicate EndsWith(edges: seq<Edge>, executed: seq<seq<nat>>) {
    exists k :: Iterate(edges, START, k) == Walk([], executed)
  }

  ghost predicate Halts(edges: seq<Edge>) {
    exists executed :: EndsWith(edges, executed)
  }

  lemma {:induction false} OneMoreIteration(edges: seq<Edge>, w: Walk, k: nat)
    ensures Iterate(edges, w, k + 1) ==
            if Iterate(edges, w, k).toVisit == [] then Iterate(edges, w, k) else Visit(edges, Iterate(edges, w, k))
    decreases k
  {
    if k > 0 && w.toVisit != [] {
      OneMoreIteration(edges, Visit(edges, w), k - 1);
    }
  }

  // ---------- Sub-batches ----------

  function Flat(log: seq<seq<nat>>): seq<nat> {
    if log == [] then [] else Flat(log[..|log| - 1]) + log[|log| - 1]
  }

  lemma {:induction false} FlatAppend(a: seq<seq<nat>>, b: seq<seq<nat>>)
    ensures Flat(a + b) == Flat(a) + Flat(b)
  {
    if b == [] {
      assert a + b == a;
    } else {
      var before, last := b[..|b| - 1], b[|b| - 1];
      FlatAppend(a, before);
      assert b == before + [last] && a + b == (a + before) + [last];
      FlatOneMore(a + before, last);
      FlatOneMore(before, last);
    }
  }

  lemma FlatOneMore(log: seq<seq<nat>>, last: seq<nat>)
    ensures Flat(log + [last]) == Flat(log) + last
  {
    assert (log + [last])[..|log|] == log;
  }

  lemma {:induction false} FlatOfFirst(batch: seq<nat>, n: nat)
    requires 100 * n <= |batch| + 100
    ensures Flat(FirstBatches(batch, n)) == batch[..Min(100 * n, |batch|)]
    ensures forall i :: 0 <= i < |FirstBatches(batch, n)| ==> |FirstBatches(batch, n)[i]| <= 100
  {
    if n > 0 {
      FlatOfFirst(batch, n - 1);
      var before := FirstBatches(batch, n - 1);
      assert (before + [SubBatch(batch, n - 1)])[..|before|] == before;
    }
  }

  /** Sub-batches stay in bounds, have at most 100 elements and concatenate to the batch. */
  lemma SubBatchesPartition(batch: seq<nat>)
    ensures Flat(SubBatches(batch)) == batch
    ensures forall i :: 0 <= i < |SubBatches(batch)| ==> |SubBatches(batch)[i]| <= 100
  {
    if batch != [] {
      FlatOfFirst(batch, BatchCount(batch));
    }
  }

  lemma {:induction false} BatchAt(batch: seq<nat>, n: nat, p: nat)
    requires p < n && 100 * n <= |batch| + 100
    ensures |FirstBatches(batch, n)| == n && FirstBatches(batch, n)[p] == SubBatch(batch, p)
  {
    if p < n - 1 {
      BatchAt(batch, n - 1, p);
    } else {
      BatchesSoFar(batch, n - 1);
    }
  }

  lemma {:induction false} BatchesSoFar(batch: seq<nat>, n: nat)
    requires 100 * n <= |batch| + 100
    ensures |FirstBatches(batch, n)| == n
  {
    if n > 0 {
      BatchesSoFar(batch, n - 1);
    }
  }

  /** A batch makes |batch| / 100 + 1 sub-batches; all but the last have 100 elements. */
  lemma SubBatchSizes(batch: seq<nat>, p: nat)
    requires batch != [] && p < |SubBatches(batch)|
    ensures |SubBatches(batch)| == |batch| / 100 + 1
    ensures |SubBatches(batch)[p]| == if p < |batch| / 100 then 100 else |batch| % 100
  {
    BatchesSoFar(batch, BatchCount(batch));
    BatchAt(batch, BatchCount(batch), p);
  }

  lemma {:induction false} InFlat(log: seq<seq<nat>>, v: nat)
    ensures v in Flat(log) <==> exists p :: 0 <= p < |log| && v in log[p]
  {
    if log != [] {
      var before := log[..|log| - 1];
      InFlat(before, v);
      if v in Flat(before) {
        var p :| 0 <= p < |before| && v in before[p];
        assert v in log[p];
      }
      if p :| 0 <= p < |log| && v in log[p] {
        if p < |before| {
          assert v in before[p];
        }
      }
    }
  }

  lemma InSubBatches(batch: seq<nat>, v: nat)
    ensures v in batch <==> exists p :: 0 <= p < |SubBatches(batch)| && v in SubBatches(batch)[p]
  {
    SubBatchesPartition(batch);
    InFlat(SubBatches(batch), v);
  }

  // ---------- Termination and number of executions ----------

  /** What an iteration makes of the queue. */
  function NextQueue(edges: seq<Edge>, queue: seq<nat>): seq<nat>
    requires queue != []
  {
    queue[1..] + Children(edges, queue[0])
  }

  lemma FirstIteration(edges: seq<Edge>, w: Walk, k: nat) returns (w': Walk)
    requires k > 0 && w.toVisit != []
    ensures w' == Visit(edges, w) && Iterate(edges, w, k) == Iterate(edges, w', k - 1)
  {
    w' := Visit(edges, w);
  }

  /** The same, of which only the queue matters. */
  lemma FirstIterationOfQueue(edges: seq<Edge>, w: Walk, k: nat) returns (w': Walk)
    requires k > 0 && w.toVisit != []
    ensures w'.toVisit == NextQueue(edges, w.toVisit)
    ensures Iterate(edges, w, k).toVisit == Iterate(edges, w', k - 1).toVisit
  {
    w' := FirstIteration(edges, w, k);
  }

  /** An iteration takes one off what m measures, and m is zero for the empty queue only. */
  ghost predicate TakesOne(edges: seq<Edge>, m: seq<nat> -> nat, queue: seq<nat>) {
    if queue == [] then m(queue) == 0 else m(queue) > 0 && m(NextQueue(edges, queue)) == m(queue) - 1
  }

  lemma {:induction false} MeasureBoundsIterations(edges: seq<Edge>, m: seq<nat> -> nat, w: Walk, n: nat)
    requires forall queue :: TakesOne(edges, m, queue)
    requires n == m(w.toVisit)
    ensures Iterate(edges, w, n).toVisit == []
    decreases n
  {
    assert TakesOne(edges, m, w.toVisit);
    if n > 0 {
      var w' := FirstIterationOfQueue(edges, w, n);
      MeasureBoundsIterations(edges, m, w', n - 1);
    }
  }

  lemma WeightOfNext(g: Dag, x: nat, rest: seq<nat>)
    ensures QueueWeight(g, rest + Children(g.edges, x)) == QueueWeight(g, [x] + rest) - 1
  {
    WeightOfNode(g, x);
    QueueWeightAppend(g, [x], rest);
    OneInQueue(g, x, 0);
    QueueWeightAppend(g, rest, Children(g.edges, x));
  }

  /** On an acyclic graph each iteration takes one off the weight of the queue. */
  lemma WeightTakesOne(g: Dag, m: seq<nat> -> nat, queue: seq<nat>)
    requires forall q :: m(q) == QueueWeight(g, q)
    ensures TakesOne(g.edges, m, queue)
  {
    if queue != [] {
      assert queue == [queue[0]] + queue[1..];
      WeightOfNext(g, queue[0], queue[1..]);
    }
  }

  lemma WeightBoundsIterations(g: Dag, w: Walk, n: nat)
    requires n == QueueWeight(g, w.toVisit)
    ensures Iterate(g.edges, w, n).toVisit == []
  {
    var m := (q: seq<nat>) => QueueWeight(g, q);
    forall queue
      ensures TakesOne(g.edges, m, queue)
    {
      WeightTakesOne(g, m, queue);
    }
    MeasureBoundsIterations(g.edges, m, w, n);
  }

  function Executions(log: seq<seq<nat>>, v: nat): nat {
    multiset(Flat(log))[v]
  }

  /** The executions of v so far, and those still to come. */
  ghost function Tally(g: Dag, w: Walk, v: nat): nat {
    Executions(w.executed, v) + PathsFrom(g, w.toVisit, v)
  }

  lemma VisitCounts(g: Dag, w: Walk, w': Walk, v: nat)
    requires w.toVisit != [] && w' == Visit(g.edges, w)
    ensures Tally(g, w', v) == Tally(g, w, v)
  {
    var x, rest := w.toVisit[0], w.toVisit[1..];
    var children := Children(g.edges, x);
    CountPaths(g, x, v);
    PathsFromAppend(g, [x], rest, v);
    OneInQueue(g, x, v);
    assert [x] + rest == w.toVisit;
    PathsFromAppend(g, rest, children, v);
    FlatAppend(w.executed, SubBatches(children));
    SubBatchesPartition(children);
  }

  lemma {:induction false} IterateCounts(g: Dag, w: Walk, k: nat, v: nat)
    ensures Tally(g, Iterate(g.edges, w, k), v) == Tally(g, w, v)
    decreases k
  {
    if k > 0 && w.toVisit != [] {
      var w' := FirstIteration(g.edges, w, k);
      VisitCounts(g, w, w', v);
      IterateCounts(g, w', k - 1, v);
    }
  }

  /** A node is executed once for each path between it and the root, repeated edges counted. */
  lemma ExecutionsArePaths(g: Dag, executed: seq<seq<nat>>, v: nat)
    requires EndsWith(g.edges, executed)
    ensures Executions(executed, v) == |Paths(g, ROOT, v)|
  {
    var k :| Iterate(g.edges, START, k) == Walk([], executed);
    IterateCounts(g, START, k, v);
    OneInQueue(g, ROOT, v);
  }

  // ---------- Order of executions ----------

  ghost predicate RunsAfter(log: seq<seq<nat>>, p: nat, v: nat) {
    exists q :: p < q < |log| && v in log[q]
  }

  ghost predicate Runs(log: seq<seq<nat>>, v: nat) {
    exists q :: 0 <= q < |log| && v in log[q]
  }

  /** What has been executed still has to be expanded, or each of its dependents runs later. */
  ghost predicate Followed(edges: seq<Edge>, w: Walk) {
    && (forall p, t, f | 0 <= p < |w.executed| && t in w.executed[p] && Edge(f, t) in edges ::
          t in w.toVisit || RunsAfter(w.executed, p, f))
    && (forall f | Edge(f, ROOT) in edges :: ROOT in w.toVisit || Runs(w.executed, f))
  }

  lemma LaterStaysLater(log: seq<seq<nat>>, more: seq<seq<nat>>, p: nat, v: nat)
    ensures RunsAfter(log, p, v) ==> RunsAfter(log + more, p, v)
    ensures Runs(log, v) ==> Runs(log + more, v)
  {
    if RunsAfter(log, p, v) {
      var q :| p < q < |log| && v in log[q];
      assert v in (log + more)[q];
    }
    if Runs(log, v) {
      var q :| 0 <= q < |log| && v in log[q];
      assert v in (log + more)[q];
    }
  }

  /** The children of a popped node run after all that ran before. */
  lemma ChildrenRunLater(edges: seq<Edge>, w: Walk, f: nat, p: nat)
    requires w.toVisit != [] && Edge(f, w.toVisit[0]) in edges && p < |w.executed|
    ensures RunsAfter(Visit(edges, w).executed, p, f)
  {
    ChildHasEdge(edges, w.toVisit[0], f);
    var batches := SubBatches(Children(edges, w.toVisit[0]));
    InSubBatches(Children(edges, w.toVisit[0]), f);
    var q :| 0 <= q < |batches| && f in batches[q];
    assert Visit(edges, w).executed[|w.executed| + q] == batches[q];
  }

  lemma ChildrenRun(edges: seq<Edge>, w: Walk, f: nat)
    requires w.toVisit != [] && Edge(f, w.toVisit[0]) in edges
    ensures Runs(Visit(edges, w).executed, f)
  {
    ChildHasEdge(edges, w.toVisit[0], f);
    var batches := SubBatches(Children(edges, w.toVisit[0]));
    InSubBatches(Children(edges, w.toVisit[0]), f);
    var q :| 0 <= q < |batches| && f in batches[q];
    assert Visit(edges, w).executed[|w.executed| + q] == batches[q];
  }

  lemma VisitKeepsFollowed(edges: seq<Edge>, w: Walk)
    requires w.toVisit != [] && Followed(edges, w)
    ensures Followed(edges, Visit(edges, w))
  {
    var w' := Visit(edges, w);
    var x, batch := w.toVisit[0], Children(edges, w.toVisit[0]);
    forall p, t, f | 0 <= p < |w'.executed| && t in w'.executed[p] && Edge(f, t) in edges
      ensures t in w'.toVisit || RunsAfter(w'.executed, p, f)
    {
      if p >= |w.executed| {
        InSubBatches(batch, t);
        assert t in SubBatches(batch)[p - |w.executed|];
      } else if RunsAfter(w.executed, p, f) {
        LaterStaysLater(w.executed, SubBatches(batch), p, f);
      } else if t == x {
        ChildrenRunLater(edges, w, f, p);
      } else {
        assert t in w.toVisit[1..];
      }
    }
    forall f | Edge(f, ROOT) in edges
      ensures ROOT in w'.toVisit || Runs(w'.executed, f)
    {
      if Runs(w.executed, f) {
        LaterStaysLater(w.executed, SubBatches(batch), 0, f);
      } else if x == ROOT {
        ChildrenRun(edges, w, f);
      } else {
        assert ROOT in w.toVisit[1..];
      }
    }
  }

  lemma {:induction false} IterateKeepsFollowed(edges: seq<Edge>, w: Walk, k: nat)
    requires Followed(edges, w)
    ensures Followed(edges, Iterate(edges, w, k))
    decreases k
  {
    if k > 0 && w.toVisit != [] {
      VisitKeepsFollowed(edges, w);
      IterateKeepsFollowed(edges, Visit(edges, w), k - 1);
    }
  }

  /**
   On any edge list on which the walk ends: each execution of a dependency is followed by an execution,
   in a later sub-batch, of every transaction that depends on it.
   */
  lemma EveryRunIsFollowed(edges: seq<Edge>, executed: seq<seq<nat>>, p: nat, t: nat, f: nat)
    requires EndsWith(edges, executed)
    requires p < |executed| && t in executed[p] && Edge(f, t) in edges
    ensures RunsAfter(executed, p, f)
  {
    var k :| Iterate(edges, START, k) == Walk([], executed);
    IterateKeepsFollowed(edges, START, k);
  }

  /** p is the last sub-batch that contains v. */
  ghost predicate IsLastRun(log: seq<seq<nat>>, v: nat, p: nat) {
    p < |log| && v in log[p] && forall q :: p < q < |log| ==> v !in log[q]
  }

  lemma LastRunExists(log: seq<seq<nat>>, v: nat)
    requires Runs(log, v)
    ensures exists p: nat :: IsLastRun(log, v, p)
  {
    var some: nat :| some < |log| && v in log[some];
    var p := |log| - 1;
    while v !in log[p]
      invariant some <= p < |log| && forall q :: p < q < |log| ==> v !in log[q]
      decreases p
    {
      p := p - 1;
    }
    assert IsLastRun(log, v, p);
  }

  ghost function LastRun(log: seq<seq<nat>>, v: nat): (p: nat)
    requires Runs(log, v)
    ensures IsLastRun(log, v, p)
  {
    LastRunExists(log, v);
    var p: nat :| IsLastRun(log, v, p);
    p
  }

  /** Both are executed, and u for the last time before v is for the last time. */
  ghost predicate EndsBefore(log: seq<seq<nat>>, u: nat, v: nat) {
    Runs(log, u) && Runs(log, v) && LastRun(log, u) < LastRun(log, v)
  }

  /**
   Last-run ordering: the last execution of a transaction comes after the last execution of everything
   it depends on, directly or through others. Earlier executions need not: `SmallWalks.FirstRunTooEarly`.
   */
  lemma {:induction false} LastRunFollowsDependencies(edges: seq<Edge>, executed: seq<seq<nat>>, x: nat, v: nat, path: seq<nat>)
    requires EndsWith(edges, executed) && IsPath(edges, x, v, path) && Runs(executed, x)
    ensures EndsBefore(executed, x, v)
    decreases |path|
  {
    var y := edges[path[0]].from;
    EveryRunIsFollowed(edges, executed, LastRun(executed, x), x, y);
    assert Runs(executed, y);
    if |path| > 1 {
      LastRunFollowsDependencies(edges, executed, y, v, path[1..]);
    }
  }

  /** Whatever depends on the root is executed. */
  lemma DependentsOfRootRun(edges: seq<Edge>, executed: seq<seq<nat>>, v: nat)
    requires EndsWith(edges, executed) && DependsOn(edges, v, ROOT)
    ensures Runs(executed, v)
  {
    var k :| Iterate(edges, START, k) == Walk([], executed);
    IterateKeepsFollowed(edges, START, k);
    var path :| IsPath(edges, ROOT, v, path);
    var y := edges[path[0]].from;
    assert Edge(y, ROOT) in edges;
    if |path| > 1 {
      LastRunFollowsDependencies(edges, executed, y, v, path[1..]);
    }
  }

  // ---------- Walks that never end ----------

  /** Of a node that v depends on, some child is v or is itself depended on by v. */
  lemma NextTowards(edges: seq<Edge>, v: nat, x: nat) returns (c: nat)
    requires DependsOn(edges, v, v) && DependsOn(edges, v, x)
    ensures c in Children(edges, x) && DependsOn(edges, v, c)
  {
    var p :| IsPath(edges, x, v, p);
    c := edges[p[0]].from;
    assert edges[p[0]] == Edge(c, x);
    ChildHasEdge(edges, x, c);
    if |p| > 1 {
      assert IsPath(edges, c, v, p[1..]);
    }
  }

  lemma CycleStaysInQueue(edges: seq<Edge>, w: Walk, v: nat, x: nat) returns (c: nat)
    requires DependsOn(edges, v, v) && DependsOn(edges, v, x) && x in w.toVisit
    ensures DependsOn(edges, v, c) && c in Visit(edges, w).toVisit
  {
    if x == w.toVisit[0] {
      c := NextTowards(edges, v, x);
    } else {
      assert x in w.toVisit[1..];
      c := x;
    }
  }

  lemma {:induction false} CycleKeepsQueueFilled(edges: seq<Edge>, w: Walk, k: nat, v: nat, x: nat)
    requires DependsOn(edges, v, v) && DependsOn(edges, v, x) && x in w.toVisit
    ensures Iterate(edges, w, k).toVisit != []
    decreases k
  {
    if k > 0 {
      var c := CycleStaysInQueue(edges, w, v, x);
      CycleKeepsQueueFilled(edges, Visit(edges, w), k - 1, v, c);
    }
  }

  /** The walk never ends when a node that depends on itself depends on the root. */
  lemma ReachableCycleNeverEnds(edges: seq<Edge>, v: nat)
    requires DependsOn(edges, v, v) && DependsOn(edges, v, ROOT)
    ensures !Halts(edges)
  {
    forall k
      ensures Iterate(edges, START, k).toVisit != []
    {
      CycleKeepsQueueFilled(edges, START, k, v, ROOT);
    }
  }
}
