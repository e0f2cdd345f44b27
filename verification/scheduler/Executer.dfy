/**
 The executer's loops: the fetch windows, and the breadth-first walk with its queue, batch and sub-batch
 loops.
 */
module Executer {
  import opened Graphs
  import opened Walks
  import opened Ranks
  import opened Construction

  // ---------- Fetch windows ----------

  /** The inclusive bounds of one `sequencer_get` call; the source steps by 1000. */
  datatype Window = Window(minHeight: nat, maxHeight: nat)

  predicate Fetches(w: Window, num: nat) {
    w.minHeight <= num <= w.maxHeight
  }

  function FetchCount(windows: seq<Window>, num: nat): nat {
    if windows == [] then 0
    else FetchCount(windows[..|windows| - 1], num) + (if Fetches(windows[|windows| - 1], num) then 1 else 0)
  }

  function WindowList(n: nat): seq<Window> {
    seq(n, k requires 0 <= k => Window(1000 * k, 1000 * k + 1000))
  }

  lemma {:induction false} FetchCountOfFirst(n: nat, num: nat)
    ensures FetchCount(WindowList(n), num) ==
            (if num / 1000 < n then 1 else 0) + (if num % 1000 == 0 && 0 < num && num / 1000 <= n then 1 else 0)
  {
    if n > 0 {
      FetchCountOfFirst(n - 1, num);
      assert WindowList(n)[..n - 1] == WindowList(n - 1);
    }
  }

  /**
   The windows for a fixed height: every sequence number is fetched, and twice exactly when it is a
   multiple of 1000 below the height.
   */
  method FetchAll(height: nat) returns (windows: seq<Window>)
    ensures forall num: nat :: 1 <= num <= height ==>
              FetchCount(windows, num) == if num % 1000 == 0 && num < height then 2 else 1
    ensures windows != [] ==> windows[0].minHeight == 0
    ensures forall k :: 0 < k < |windows| ==> windows[k].minHeight == windows[k - 1].maxHeight
    ensures forall k :: 0 <= k < |windows| ==> windows[k].maxHeight == windows[k].minHeight + 1000 && windows[k].minHeight < height
  {
    windows := [];
    var i := 0;
    ghost var n := 0;
    while i < height
      invariant i == 1000 * n && windows == WindowList(n)
      invariant n > 0 ==> 1000 * (n - 1) < height
    {
      windows := windows + [Window(i, i + 1000)];
      i := i + 1000;
      n := n + 1;
    }
    forall num: nat | 1 <= num <= height
      ensures FetchCount(windows, num) == if num % 1000 == 0 && num < height then 2 else 1
    {
      FetchCountOfFirst(n, num);
    }
  }

  // ---------- The walk ----------

  lemma {:induction false} EndedStaysEnded(edges: seq<Edge>, w: Walk, k: nat, n: nat)
    requires Iterate(edges, w, k).toVisit == [] && k <= n
    ensures Iterate(edges, w, n) == Iterate(edges, w, k)
    decreases n
  {
    if k < n {
      EndedStaysEnded(edges, w, k, n - 1);
      OneMoreIteration(edges, w, n - 1);
    }
  }

  /** A walk that ends has one outcome. */
  lemma EndsOnce(edges: seq<Edge>, a: seq<seq<nat>>, b: seq<seq<nat>>)
    requires EndsWith(edges, a) && EndsWith(edges, b)
    ensures a == b
  {
    var k :| Iterate(edges, START, k) == Walk([], a);
    var n :| Iterate(edges, START, n) == Walk([], b);
    if k <= n {
      EndedStaysEnded(edges, START, k, n);
    } else {
      EndedStaysEnded(edges, START, n, k);
    }
  }

  /** Executes a batch, at most 100 transactions at a time. */
  method ExecuteBatch(batch: seq<nat>, executed: seq<seq<nat>>) returns (executed': seq<seq<nat>>)
    requires batch != []
    ensures executed' == executed + SubBatches(batch)
  {
    executed' := executed;
    var i := 0;
    while i < |batch| / 100 + 1
      invariant 0 <= i <= BatchCount(batch)
      invariant executed' == executed + FirstBatches(batch, i)
    {
      var start := 100 * i;
      var end := start + 100;
      if end > |batch| {
        end := |batch|;
      }
      assert batch[start..end] == SubBatch(batch, i);
      executed' := executed' + [batch[start..end]];
      i := i + 1;
    }
  }

  /** The children of a popped node, in edge order. */
  method CollectBatch(edges: seq<Edge>, node: nat) returns (batch: seq<nat>)
    ensures batch == Children(edges, node)
  {
    batch := [];
    for e := 0 to |edges|
      invariant batch == Children(edges[..e], node)
    {
      ChildrenOfOneMore(edges, e + 1, node);
      if edges[e].to == node {
        batch := batch + [edges[e].from];
      }
    }
    assert edges[..|edges|] == edges;
  }

  /** Queues the children of a popped node. */
  method VisitChildren(edges: seq<Edge>, node: nat, rest: seq<nat>) returns (toVisit: seq<nat>)
    ensures toVisit == rest + Children(edges, node)
  {
    toVisit := rest;
    for e := 0 to |edges|
      invariant toVisit == rest + Children(edges[..e], node)
    {
      ChildrenOfOneMore(edges, e + 1, node);
      if edges[e].to == node {
        toVisit := toVisit + [edges[e].from];
      }
    }
    assert edges[..|edges|] == edges;
  }

  /** One iteration of the queue loop. */
  method VisitFirst(edges: seq<Edge>, toVisit: seq<nat>, executed: seq<seq<nat>>)
    returns (toVisit': seq<nat>, executed': seq<seq<nat>>)
    requires toVisit != []
    ensures Walk(toVisit', executed') == Visit(edges, Walk(toVisit, executed))
  {
    // pop.
    var node := toVisit[0];
    // visit.
    var batch := CollectBatch(edges, node);
    executed' := executed;
    if |batch| != 0 {
      executed' := ExecuteBatch(batch, executed);
    }
    // visit children.
    toVisit' := VisitChildren(edges, node, toVisit[1..]);
  }

  /** A walk that ends after `last` iterations goes on until then. */
  lemma GoesOn(edges: seq<Edge>, n: nat, last: nat, w: Walk, w': Walk)
    requires Iterate(edges, START, n) == w && w.toVisit != [] && w' == Visit(edges, w)
    requires n <= last && Iterate(edges, START, last).toVisit == []
    ensures n < last && Iterate(edges, START, n + 1) == w'
  {
    OneMoreIteration(edges, START, n);
  }

  /** The queue loop. It may be called exactly when no cycle can be reached from the root. */
  method BreadthFirst(edges: seq<Edge>) returns (executed: seq<seq<nat>>)
    requires forall v :: DependsOn(edges, v, ROOT) ==> !DependsOn(edges, v, v)
    ensures EndsWith(edges, executed)
  {
    HaltsExactlyWithoutReachableCycle(edges);
    ghost var final :| EndsWith(edges, final);
    ghost var last: nat :| Iterate(edges, START, last) == Walk([], final);
    ghost var n := 0;
    var toVisit := [ROOT];
    executed := [];
    while |toVisit| > 0
      invariant Iterate(edges, START, n) == Walk(toVisit, executed)
      invariant n <= last
      decreases last - n
    {
      ghost var w := Walk(toVisit, executed);
      toVisit, executed := VisitFirst(edges, toVisit, executed);
      GoesOn(edges, n, last, w, Walk(toVisit, executed));
      n := n + 1;
    }
  }

  /**
   One fetched window: build the graph, walk it. When the keys of each transaction are distinct, which is
   exactly when the walk ends, every transaction runs and any two that share a key end in sequence order.
   */
  method ExecuteWindow<K(==,!new)>(deps: Deps<K>) returns (executed: seq<seq<nat>>)
    requires forall i :: 0 <= i < |deps| ==> NoDuplicates(deps[i])
    ensures EndsWith(AllEdges(deps), executed)
    ensures forall v: nat :: 0 < v <= |deps| ==> Runs(executed, v)
    ensures forall i: nat, j: nat, key :: DeclareBoth(deps, i, j, key) ==> EndsBefore(executed, i + 1, j + 1)
  {
    var g := new ExecutionGraph<K>();
    g.Build(deps);
    BuiltWalkHaltsExactly(deps);
    HaltsExactlyWithoutReachableCycle(g.edges);
    executed := BreadthFirst(g.edges);
    ghost var dag := DistinctKeysRank(deps);
    forall v: nat | 0 < v <= |deps|
      ensures Runs(executed, v)
    {
      EveryTxRuns(deps, dag, executed, v - 1);
    }
    forall i: nat, j: nat, key | DeclareBoth(deps, i, j, key)
      ensures EndsBefore(executed, i + 1, j + 1)
    {
      ConflictsEndInOrder(deps, executed, i, j, key);
    }
  }
}
