/**
 A finite graph without cycles has a rank: the length of the longest path that ends at a node. With it, the
 walk is shown to end exactly when no cycle can be reached from the root.
 */
module Ranks {
  import opened Graphs
  import opened Walks

  // ---------- Paths in an acyclic graph do not repeat edges ----------

  /** Consecutive edges of p meet. */
  ghost predicate Chained(edges: seq<Edge>, p: seq<nat>) {
    && (forall k :: 0 <= k < |p| ==> p[k] < |edges|)
    && (forall k :: 0 < k < |p| ==> edges[p[k - 1]].from == edges[p[k]].to)
  }

  lemma {:induction false} PathIsChained(edges: seq<Edge>, x: nat, v: nat, p: seq<nat>)
    requires IsPath(edges, x, v, p)
    ensures Chained(edges, p) && edges[p[0]].to == x && edges[p[|p| - 1]].from == v
    decreases |p|
  {
    if |p| > 1 {
      var rest := p[1..];
      PathIsChained(edges, edges[p[0]].from, v, rest);
      assert forall k :: 0 < k < |p| ==> p[k] == rest[k - 1];
    }
  }

  lemma {:induction false} ChainedIsPath(edges: seq<Edge>, p: seq<nat>)
    requires p != [] && Chained(edges, p)
    ensures IsPath(edges, edges[p[0]].to, edges[p[|p| - 1]].from, p)
    decreases |p|
  {
    if |p| > 1 {
      var rest := p[1..];
      assert forall k :: 0 <= k < |rest| ==> rest[k] == p[k + 1];
      assert rest[0] == p[1] && rest[|rest| - 1] == p[|p| - 1];
      ChainedIsPath(edges, rest);
    }
  }

  lemma SubpathIsChained(edges: seq<Edge>, p: seq<nat>, i: nat, j: nat, sub: seq<nat>)
    requires Chained(edges, p) && i < j <= |p| && sub == p[i..j]
    ensures Chained(edges, sub) && sub[0] == p[i] && sub[|sub| - 1] == p[j - 1]
  {
    assert forall k :: 0 <= k < |sub| ==> sub[k] == p[i + k];
  }

  lemma RepeatMakesCycle(edges: seq<Edge>, p: seq<nat>, i: nat, j: nat)
    requires Chained(edges, p) && i < j < |p| && p[i] == p[j]
    ensures DependsOn(edges, edges[p[i]].to, edges[p[i]].to)
  {
    SubpathIsChained(edges, p, i, j, p[i..j]);
    ChainedIsPath(edges, p[i..j]);
    assert edges[p[j - 1]].from == edges[p[j]].to;
  }

  lemma AcyclicPathsDoNotRepeat(edges: seq<Edge>, x: nat, v: nat, p: seq<nat>)
    requires Acyclic(edges) && IsPath(edges, x, v, p)
    ensures NoDuplicates(p)
  {
    PathIsChained(edges, x, v, p);
    forall i, j | 0 <= i < j < |p|
      ensures p[i] != p[j]
    {
      if p[i] == p[j] {
        RepeatMakesCycle(edges, p, i, j);
      }
    }
  }

  lemma {:induction false} DistinctBelow(p: seq<nat>, n: nat)
    requires NoDuplicates(p) && forall k :: 0 <= k < |p| ==> p[k] < n
    ensures |p| <= n
    decreases n
  {
    if p != [] {
      assert p[0] < n;
      if n - 1 in p {
        var k :| 0 <= k < |p| && p[k] == n - 1;
        DistinctBelow(p[..k] + p[k + 1..], n - 1);
      } else {
        DistinctBelow(p, n - 1);
      }
    }
  }

  lemma AcyclicPathsAreShort(edges: seq<Edge>, x: nat, v: nat, p: seq<nat>)
    requires Acyclic(edges) && IsPath(edges, x, v, p)
    ensures |p| <= |edges|
  {
    AcyclicPathsDoNotRepeat(edges, x, v, p);
    PathIsChained(edges, x, v, p);
    DistinctBelow(p, |edges|);
  }

  // ---------- The longest path that ends at a node ----------

  function Max(a: nat, b: nat): nat {
    if a > b then a else b
  }

  /** Length of the longest path of at most n edges that ends at v. */
  function Longest(edges: seq<Edge>, v: nat, n: nat): nat
    decreases n, |edges| + 1
  {
    if n == 0 then 0 else LongestUpTo(edges, v, n, |edges|)
  }

  /** The same, for paths whose last edge is among the first m. */
  function LongestUpTo(edges: seq<Edge>, v: nat, n: nat, m: nat): nat
    requires m <= |edges| && n > 0
    decreases n, m
  {
    if m == 0 then 0
    else
      var before := LongestUpTo(edges, v, n, m - 1);
      if edges[m - 1].from == v then Max(before, 1 + Longest(edges, edges[m - 1].to, n - 1)) else before
  }

  lemma {:induction false} EdgeLengthens(edges: seq<Edge>, v: nat, n: nat, m: nat, i: nat)
    requires i < m <= |edges| && edges[i].from == v && n > 0
    ensures LongestUpTo(edges, v, n, m) >= 1 + Longest(edges, edges[i].to, n - 1)
    decreases m
  {
    if i < m - 1 {
      EdgeLengthens(edges, v, n, m - 1, i);
    }
  }

  lemma {:induction false} LongestIsAttained(edges: seq<Edge>, v: nat, n: nat, m: nat) returns (x: nat, p: seq<nat>)
    requires m <= |edges| && n > 0 && LongestUpTo(edges, v, n, m) > 0
    ensures IsPath(edges, x, v, p) && |p| == LongestUpTo(edges, v, n, m)
    decreases n, m
  {
    if LongestUpTo(edges, v, n, m) == LongestUpTo(edges, v, n, m - 1) {
      x, p := LongestIsAttained(edges, v, n, m - 1);
    } else {
      var i := m - 1;
      var y := edges[i].to;
      assert IsPath(edges, y, v, [i]);
      if Longest(edges, y, n - 1) == 0 {
        x, p := y, [i];
      } else {
        x, p := LongestIsAttained(edges, y, n - 1, |edges|);
        PathsCompose(edges, x, y, v, p, [i]);
        p := p + [i];
      }
    }
  }

  lemma {:induction false} LongestIsStable(edges: seq<Edge>, v: nat, n: nat, m: nat)
    requires m <= |edges| && n > 0 && LongestUpTo(edges, v, n, m) < n
    ensures LongestUpTo(edges, v, n + 1, m) == LongestUpTo(edges, v, n, m)
    decreases n, m
  {
    if m > 0 {
      LongestIsStable(edges, v, n, m - 1);
      if edges[m - 1].from == v {
        var y := edges[m - 1].to;
        if n > 1 {
          LongestIsStable(edges, y, n - 1, |edges|);
        }
      }
    }
  }

  lemma AcyclicLongestBound(edges: seq<Edge>, v: nat, n: nat)
    requires Acyclic(edges)
    ensures Longest(edges, v, n) <= |edges|
  {
    if Longest(edges, v, n) > 0 {
      var x, p := LongestIsAttained(edges, v, n, |edges|);
      AcyclicPathsAreShort(edges, x, v, p);
    }
  }

  /** Every acyclic edge list can be ranked. */
  lemma AcyclicHasRank(edges: seq<Edge>) returns (g: Dag)
    requires Acyclic(edges)
    ensures g.edges == edges
  {
    var n := |edges| + 1;
    var ranked := Dag(edges, x => Longest(edges, x, n), |edges|);
    forall e | e in edges
      ensures ranked.rank(e.to) < ranked.rank(e.from) <= ranked.bound
    {
      var i :| 0 <= i < |edges| && edges[i] == e;
      AcyclicLongestBound(edges, e.from, n);
      LongestIsStable(edges, e.from, n, |edges|);
      EdgeLengthens(edges, e.from, n + 1, |edges|, i);
    }
    g := ranked;
  }

  lemma {:induction false} RankGrowsAlongPaths(g: Dag, x: nat, v: nat, p: seq<nat>)
    requires IsPath(g.edges, x, v, p)
    ensures g.rank(x) < g.rank(v)
    decreases |p|
  {
    assert g.edges[p[0]] in g.edges;
    if |p| > 1 {
      RankGrowsAlongPaths(g, g.edges[p[0]].from, v, p[1..]);
    }
  }

  lemma RankedIsAcyclic(g: Dag)
    ensures Acyclic(g.edges)
  {
    forall x
      ensures !DependsOn(g.edges, x, x)
    {
      if DependsOn(g.edges, x, x) {
        var p :| IsPath(g.edges, x, x, p);
        RankGrowsAlongPaths(g, x, x, p);
      }
    }
  }

  // ---------- Termination, exactly ----------

  lemma AcyclicHalts(edges: seq<Edge>)
    requires Acyclic(edges)
    ensures Halts(edges)
  {
    var g := AcyclicHasRank(edges);
    var k := QueueWeight(g, START.toVisit);
    WeightBoundsIterations(g, START, k);
    assert EndsWith(edges, Iterate(edges, START, k).executed);
  }

  /** The root, or a node that depends on it. */
  ghost predicate Live(edges: seq<Edge>, x: nat) {
    x == ROOT || DependsOn(edges, x, ROOT)
  }

  /** The edges among the first n that point at a live node. */
  ghost function LiveEdges(edges: seq<Edge>, n: nat): (r: seq<Edge>)
    requires n <= |edges|
    ensures forall e :: e in r ==> e in edges && Live(edges, e.to)
  {
    if n == 0 then []
    else if Live(edges, edges[n - 1].to) then LiveEdges(edges, n - 1) + [edges[n - 1]]
    else LiveEdges(edges, n - 1)
  }

  lemma {:induction false} LiveChildren(edges: seq<Edge>, n: nat, x: nat)
    requires n <= |edges| && Live(edges, x)
    ensures Children(LiveEdges(edges, n), x) == Children(edges[..n], x)
    decreases n
  {
    if n > 0 {
      LiveChildren(edges, n - 1, x);
      assert edges[..n][..n - 1] == edges[..n - 1];
      if Live(edges, edges[n - 1].to) {
        var r := LiveEdges(edges, n);
        assert r[..|r| - 1] == LiveEdges(edges, n - 1);
      }
    }
  }

  lemma ChildOfLiveIsLive(edges: seq<Edge>, x: nat, c: nat)
    requires Live(edges, x) && c in Children(edges, x)
    ensures Live(edges, c)
  {
    ChildHasEdge(edges, x, c);
    EdgeIsDependency(edges, c, x);
    if x != ROOT {
      DependencyIsTransitive(edges, c, x, ROOT);
    }
  }

  lemma {:induction false} WalkSeesLiveEdgesOnly(edges: seq<Edge>, w: Walk, k: nat)
    requires forall i :: 0 <= i < |w.toVisit| ==> Live(edges, w.toVisit[i])
    ensures Iterate(edges, w, k) == Iterate(LiveEdges(edges, |edges|), w, k)
    decreases k
  {
    if k > 0 && w.toVisit != [] {
      var live := LiveEdges(edges, |edges|);
      var children := Children(edges, w.toVisit[0]);
      LiveChildren(edges, |edges|, w.toVisit[0]);
      assert edges[..|edges|] == edges;
      assert Visit(edges, w) == Visit(live, w);
      forall i | 0 <= i < |children|
        ensures Live(edges, children[i])
      {
        ChildOfLiveIsLive(edges, w.toVisit[0], children[i]);
      }
      WalkSeesLiveEdgesOnly(edges, Visit(edges, w), k - 1);
    }
  }

  lemma {:induction false} PathOfSubgraph(sub: seq<Edge>, edges: seq<Edge>, x: nat, v: nat, p: seq<nat>)
    requires IsPath(sub, x, v, p) && forall e :: e in sub ==> e in edges
    ensures DependsOn(edges, v, x)
    decreases |p|
  {
    var y := sub[p[0]].from;
    assert sub[p[0]] == Edge(y, x);
    EdgeIsDependency(edges, y, x);
    if |p| > 1 {
      PathOfSubgraph(sub, edges, y, v, p[1..]);
      DependencyIsTransitive(edges, v, y, x);
    }
  }

  /** The walk ends if and only if no node that depends on the root depends on itself. */
  lemma HaltsExactlyWithoutReachableCycle(edges: seq<Edge>)
    ensures Halts(edges) <==> forall v :: DependsOn(edges, v, ROOT) ==> !DependsOn(edges, v, v)
  {
    if v :| DependsOn(edges, v, ROOT) && DependsOn(edges, v, v) {
      ReachableCycleNeverEnds(edges, v);
    } else {
      var live := LiveEdges(edges, |edges|);
      forall x
        ensures !DependsOn(live, x, x)
      {
        if DependsOn(live, x, x) {
          var p :| IsPath(live, x, x, p);
          assert live[p[0]] in live;
          PathOfSubgraph(live, edges, x, x, p);
        }
      }
      AcyclicHalts(live);
      var executed :| EndsWith(live, executed);
      var k :| Iterate(live, START, k) == Walk([], executed);
      WalkSeesLiveEdgesOnly(edges, START, k);
      assert EndsWith(edges, executed);
    }
  }
}
