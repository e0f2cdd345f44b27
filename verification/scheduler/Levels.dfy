/**
 The walk is breadth first: it executes level after level, where level k has the nodes at the end of a path of
 k edges from the root, once for each way to get there.
 */
module Levels {
  import opened Graphs
  import opened Walks
  import opened Ranks
  import opened Executer

  /** The children of all nodes of a level, in order. */
  function NextLevel(edges: seq<Edge>, level: seq<nat>): seq<nat> {
    if level == [] then [] else NextLevel(edges, level[..|level| - 1]) + Children(edges, level[|level| - 1])
  }

  /** The sub-batches that visiting the nodes of a level executes. */
  function LevelBatches(edges: seq<Edge>, level: seq<nat>): seq<seq<nat>> {
    if level == [] then [] else LevelBatches(edges, level[..|level| - 1]) + SubBatches(Children(edges, level[|level| - 1]))
  }

  /** Level k, counted from the first one. */
  function LevelFrom(edges: seq<Edge>, first: seq<nat>, k: nat): seq<nat> {
    if k == 0 then first else NextLevel(edges, LevelFrom(edges, first, k - 1))
  }

  /** What the first k levels execute. */
  function LogFrom(edges: seq<Edge>, first: seq<nat>, k: nat): seq<seq<nat>> {
    if k == 0 then [] else LogFrom(edges, first, k - 1) + LevelBatches(edges, LevelFrom(edges, first, k - 1))
  }

  /** How many nodes the first k levels have. */
  function NodesFrom(edges: seq<Edge>, first: seq<nat>, k: nat): nat {
    if k == 0 then 0 else NodesFrom(edges, first, k - 1) + |LevelFrom(edges, first, k - 1)|
  }

  function Level(edges: seq<Edge>, k: nat): seq<nat> {
    LevelFrom(edges, [ROOT], k)
  }

  function LevelLog(edges: seq<Edge>, k: nat): seq<seq<nat>> {
    LogFrom(edges, [ROOT], k)
  }

  /** The walk in the middle of a level: what is left of it, and what comes of the nodes visited. */
  function Within(edges: seq<Edge>, visited: seq<nat>, left: seq<nat>, executed: seq<seq<nat>>): Walk {
    Walk(left + NextLevel(edges, visited), executed + LevelBatches(edges, visited))
  }

  lemma VisitWithin(edges: seq<Edge>, visited: seq<nat>, x: nat, left: seq<nat>, executed: seq<seq<nat>>)
    ensures Visit(edges, Within(edges, visited, [x] + left, executed)) == Within(edges, visited + [x], left, executed)
  {
    LevelOneMore(edges, visited, x);
    PopFirst(x, left, NextLevel(edges, visited), Children(edges, x));
    BatchesOneMore(executed, LevelBatches(edges, visited), SubBatches(Children(edges, x)));
  }

  lemma LevelOneMore(edges: seq<Edge>, level: seq<nat>, x: nat)
    ensures NextLevel(edges, level + [x]) == NextLevel(edges, level) + Children(edges, x)
    ensures LevelBatches(edges, level + [x]) == LevelBatches(edges, level) + SubBatches(Children(edges, x))
  {
    assert (level + [x])[..|level|] == level;
  }

  lemma PopFirst(x: nat, left: seq<nat>, next: seq<nat>, children: seq<nat>)
    ensures ([x] + left + next)[0] == x && ([x] + left + next)[1..] + children == left + (next + children)
  {
    assert ([x] + left + next)[1..] == left + next;
  }

  lemma BatchesOneMore(a: seq<seq<nat>>, b: seq<seq<nat>>, c: seq<seq<nat>>)
    ensures a + b + c == a + (b + c)
  {
  }

  lemma {:induction false} WalkWithin(edges: seq<Edge>, visited: seq<nat>, left: seq<nat>, executed: seq<seq<nat>>, w: Walk, n: nat)
    requires n == |left| && w == Within(edges, visited, left, executed)
    ensures Iterate(edges, w, n) == Within(edges, visited + left, [], executed)
    decreases n
  {
    if n == 0 {
      assert visited + left == visited && left == [];
    } else {
      var w' := NextWithin(edges, visited, left, executed, w, n);
      WalkWithin(edges, visited + [left[0]], left[1..], executed, w', n - 1);
      assert visited + [left[0]] + left[1..] == visited + left;
    }
  }

  lemma NextWithin(edges: seq<Edge>, visited: seq<nat>, left: seq<nat>, executed: seq<seq<nat>>, w: Walk, n: nat) returns (w': Walk)
    requires n == |left| > 0 && w == Within(edges, visited, left, executed)
    ensures w' == Within(edges, visited + [left[0]], left[1..], executed)
    ensures Iterate(edges, w, n) == Iterate(edges, w', n - 1)
  {
    assert [left[0]] + left[1..] == left;
    VisitWithin(edges, visited, left[0], left[1..], executed);
    w' := FirstIteration(edges, w, n);
  }

  /** Visiting a whole level leaves exactly the next one in the queue. */
  lemma WalkLevel(edges: seq<Edge>, level: seq<nat>, executed: seq<seq<nat>>, n: nat)
    requires n == |level|
    ensures Iterate(edges, Walk(level, executed), n) ==
            Walk(NextLevel(edges, level), executed + LevelBatches(edges, level))
  {
    assert Within(edges, [], level, executed) == Walk(level, executed);
    WalkWithin(edges, [], level, executed, Walk(level, executed), n);
    assert [] + level == level;
  }

  lemma {:induction false} IterateTwice(edges: seq<Edge>, w: Walk, m: nat, n: nat)
    ensures Iterate(edges, w, m + n) == Iterate(edges, Iterate(edges, w, m), n)
    decreases m
  {
    if m > 0 && w.toVisit != [] {
      var w' := FirstIteration(edges, w, m);
      var w'' := FirstIteration(edges, w, m + n);
      IterateTwice(edges, w', m - 1, n);
    }
  }

  /** After as many iterations as there are nodes in the queue, the queue has the next level. */
  ghost predicate StepsLevel(edges: seq<Edge>, after: nat -> Walk, m: nat) {
    var w := after(m);
    after(m + |w.toVisit|) == Walk(NextLevel(edges, w.toVisit), w.executed + LevelBatches(edges, w.toVisit))
  }

  lemma {:induction false} LevelByLevel(edges: seq<Edge>, after: nat -> Walk, first: seq<nat>, k: nat, m: nat)
    requires after(0) == Walk(first, []) && m == NodesFrom(edges, first, k)
    requires forall n :: StepsLevel(edges, after, n)
    ensures after(m) == Walk(LevelFrom(edges, first, k), LogFrom(edges, first, k))
    decreases k
  {
    if k > 0 {
      var n := NodesFrom(edges, first, k - 1);
      LevelByLevel(edges, after, first, k - 1, n);
      assert StepsLevel(edges, after, n);
    }
  }

  lemma IterationStepsLevel(edges: seq<Edge>, start: Walk, after: nat -> Walk, m: nat)
    requires forall n :: after(n) == Iterate(edges, start, n)
    ensures StepsLevel(edges, after, m)
  {
    LevelAfterLevel(edges, start, m, after(m).toVisit, after(m).executed);
  }

  /** The walk goes through the levels in order. */
  lemma WalkReachesLevel(edges: seq<Edge>, first: seq<nat>, k: nat, start: Walk)
    requires start == Walk(first, [])
    ensures Iterate(edges, start, NodesFrom(edges, first, k)) == Walk(LevelFrom(edges, first, k), LogFrom(edges, first, k))
  {
    var after := (m: nat) => Iterate(edges, start, m);
    forall m
      ensures StepsLevel(edges, after, m)
    {
      IterationStepsLevel(edges, start, after, m);
    }
    LevelByLevel(edges, after, first, k, NodesFrom(edges, first, k));
  }

  lemma LevelAfterLevel(edges: seq<Edge>, start: Walk, m: nat, level: seq<nat>, log: seq<seq<nat>>)
    requires Iterate(edges, start, m) == Walk(level, log)
    ensures Iterate(edges, start, m + |level|) == Walk(NextLevel(edges, level), log + LevelBatches(edges, level))
  {
    IterateTwice(edges, start, m, |level|);
    WalkLevel(edges, level, log, |level|);
  }

  /** Levels that are not empty have at least one node each. */
  lemma {:induction false} NonEmptyLevels(edges: seq<Edge>, first: seq<nat>, k: nat)
    requires forall j :: 0 <= j < k ==> LevelFrom(edges, first, j) != []
    ensures NodesFrom(edges, first, k) >= k
  {
    if k > 0 {
      NonEmptyLevels(edges, first, k - 1);
    }
  }

  lemma EndsAtLevel(edges: seq<Edge>, first: seq<nat>, start: Walk, executed: seq<seq<nat>>, n: nat) returns (k: nat, m: nat)
    requires start == Walk(first, []) && Iterate(edges, start, n) == Walk([], executed)
    ensures LevelFrom(edges, first, k) == [] && Iterate(edges, start, m) == Walk([], LogFrom(edges, first, k))
  {
    if j: nat :| j <= n && LevelFrom(edges, first, j) == [] {
      k := j;
    } else {
      k := n + 1;
      NonEmptyLevels(edges, first, k);
      WalkReachesLevel(edges, first, k, start);
      EndedStaysEnded(edges, start, n, NodesFrom(edges, first, k));
    }
    m := NodesFrom(edges, first, k);
    WalkReachesLevel(edges, first, k, start);
  }

  /** A walk that ends has executed its levels one after the other, up to one that is empty. */
  lemma WalkIsBreadthFirst(edges: seq<Edge>, executed: seq<seq<nat>>)
    requires EndsWith(edges, executed)
    ensures exists k :: Level(edges, k) == [] && executed == LevelLog(edges, k)
  {
    var n :| Iterate(edges, START, n) == Walk([], executed);
    var k, m := EndsAtLevel(edges, [ROOT], START, executed, n);
    EndsOnce(edges, executed, LevelLog(edges, k));
  }

  // ---------- Levels are path lengths ----------

  lemma {:induction false} InNextLevel(edges: seq<Edge>, level: seq<nat>, v: nat)
    ensures v in NextLevel(edges, level) <==> exists x :: x in level && Edge(v, x) in edges
  {
    if level != [] {
      var before, last := level[..|level| - 1], level[|level| - 1];
      InNextLevel(edges, before, v);
      ChildHasEdge(edges, last, v);
      assert forall x :: x in level <==> x in before || x == last;
    }
  }

  /** A path of k edges from the root to v. */
  ghost predicate AtDepth(edges: seq<Edge>, v: nat, k: nat) {
    if k == 0 then v == ROOT else exists p :: IsPath(edges, ROOT, v, p) && |p| == k
  }

  lemma DeeperByEdge(edges: seq<Edge>, x: nat, v: nat, k: nat)
    requires AtDepth(edges, x, k) && Edge(v, x) in edges
    ensures AtDepth(edges, v, k + 1)
  {
    var i :| 0 <= i < |edges| && edges[i] == Edge(v, x);
    assert IsPath(edges, x, v, [i]);
    if k > 0 {
      var p: seq<nat> :| IsPath(edges, ROOT, x, p) && |p| == k;
      PathsCompose(edges, ROOT, x, v, p, [i]);
      assert |p + [i]| == k + 1;
    }
  }

  lemma ShallowerByEdge(edges: seq<Edge>, v: nat, k: nat) returns (x: nat)
    requires AtDepth(edges, v, k + 1)
    ensures AtDepth(edges, x, k) && Edge(v, x) in edges
  {
    var p: seq<nat> :| IsPath(edges, ROOT, v, p) && |p| == k + 1;
    PathIsChained(edges, ROOT, v, p);
    var e := edges[p[k]];
    x := e.to;
    assert e == Edge(v, x);
    if k > 0 {
      var q := p[..k];
      SubpathIsChained(edges, p, 0, k, q);
      ChainedIsPath(edges, q);
      assert edges[q[k - 1]].from == x;
    }
  }

  /** The level has exactly the nodes at the end of a path of k edges. */
  ghost predicate IsDepth(edges: seq<Edge>, level: seq<nat>, k: nat) {
    forall v :: v in level <==> AtDepth(edges, v, k)
  }

  lemma OneDeeper(edges: seq<Edge>, level: seq<nat>, k: nat, v: nat)
    requires IsDepth(edges, level, k)
    ensures v in NextLevel(edges, level) <==> AtDepth(edges, v, k + 1)
  {
    InNextLevel(edges, level, v);
    if x :| x in level && Edge(v, x) in edges {
      DeeperByEdge(edges, x, v, k);
    } else if AtDepth(edges, v, k + 1) {
      var y := ShallowerByEdge(edges, v, k);
    }
  }

  lemma {:induction false} LevelIsDepth(edges: seq<Edge>, k: nat, first: seq<nat>)
    requires first == [ROOT]
    ensures IsDepth(edges, LevelFrom(edges, first, k), k)
    decreases k
  {
    if k > 0 {
      var level := LevelFrom(edges, first, k - 1);
      LevelIsDepth(edges, k - 1, first);
      forall v
        ensures v in NextLevel(edges, level) <==> AtDepth(edges, v, k)
      {
        OneDeeper(edges, level, k - 1, v);
      }
    }
  }

  /** Level k of the walk has exactly the nodes that a path of k edges leads to from the root. */
  lemma LevelExactly(edges: seq<Edge>, v: nat, k: nat)
    ensures v in Level(edges, k) <==> AtDepth(edges, v, k)
  {
    LevelIsDepth(edges, k, [ROOT]);
  }
}
