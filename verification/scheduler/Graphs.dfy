/**
 Execution graphs. Nodes are numbers: 0 is the execution root and i + 1 is transaction i. An edge points
 from a transaction to what it depends on. A path leads from a node to a node that depends on it; it is
 a list of edge indices, so repeated edges give different paths.
 */
module Graphs {
  datatype Edge = Edge(from: nat, to: nat)

  const ROOT: nat := 0

  /** The nodes that point at x, in edge order, once for each edge. */
  function Children(edges: seq<Edge>, x: nat): seq<nat> {
    if edges == [] then []
    else
      var e := edges[|edges| - 1];
      var before := Children(edges[..|edges| - 1], x);
      if e.to == x then before + [e.from] else before
  }

  lemma {:induction false} ChildHasEdge(edges: seq<Edge>, x: nat, c: nat)
    ensures c in Children(edges, x) <==> Edge(c, x) in edges
  {
    if edges != [] {
      ChildHasEdge(edges[..|edges| - 1], x, c);
      assert edges == edges[..|edges| - 1] + [edges[|edges| - 1]];
    }
  }

  // ---------- Paths ----------

  /** p leads from x, against the edges, to v. */
  ghost predicate IsPath(edges: seq<Edge>, x: nat, v: nat, p: seq<nat>)
    decreases |p|
  {
    && p != [] && p[0] < |edges| && edges[p[0]].to == x
    && if |p| == 1 then edges[p[0]].from == v else IsPath(edges, edges[p[0]].from, v, p[1..])
  }

  /** v depends on x, directly or through others. */
  ghost predicate DependsOn(edges: seq<Edge>, v: nat, x: nat) {
    exists p :: IsPath(edges, x, v, p)
  }

  lemma EdgeIsDependency(edges: seq<Edge>, v: nat, x: nat)
    requires Edge(v, x) in edges
    ensures DependsOn(edges, v, x)
  {
    var i :| 0 <= i < |edges| && edges[i] == Edge(v, x);
    assert IsPath(edges, x, v, [i]);
  }

  lemma {:induction false} PathsCompose(edges: seq<Edge>, x: nat, y: nat, v: nat, p: seq<nat>, q: seq<nat>)
    requires IsPath(edges, x, y, p) && IsPath(edges, y, v, q)
    ensures IsPath(edges, x, v, p + q)
    decreases |p|
  {
    if |p| == 1 {
      assert (p + q)[1..] == q;
    } else {
      PathsCompose(edges, edges[p[0]].from, y, v, p[1..], q);
      assert (p + q)[1..] == p[1..] + q;
    }
  }

  lemma DependencyIsTransitive(edges: seq<Edge>, v: nat, y: nat, x: nat)
    requires DependsOn(edges, v, y) && DependsOn(edges, y, x)
    ensures DependsOn(edges, v, x)
  {
    var p :| IsPath(edges, x, y, p);
    var q :| IsPath(edges, y, v, q);
    PathsCompose(edges, x, y, v, p, q);
  }

  // ---------- Acyclic graphs ----------

  ghost predicate Acyclic(edges: seq<Edge>) {
    forall x :: !DependsOn(edges, x, x)
  }

  /** A graph with a rank that grows along dependents and is bounded. */
  datatype RankedGraph = Dag(edges: seq<Edge>, rank: nat -> nat, bound: nat)

  ghost predicate Ranked(g: RankedGraph) {
    forall e :: e in g.edges ==> g.rank(e.to) < g.rank(e.from) <= g.bound
  }

  type Dag = g: RankedGraph | Ranked(g) witness Dag([], x => 0, 0)

  ghost function Height(g: Dag, x: nat): nat {
    if g.rank(x) <= g.bound then g.bound - g.rank(x) else 0
  }

  // ---------- The list of all paths ----------

  ghost function Prefixed(i: nat, ps: seq<seq<nat>>): (r: seq<seq<nat>>)
    ensures |r| == |ps| && forall k :: 0 <= k < |ps| ==> r[k] == [i] + ps[k]
  {
    seq(|ps|, k requires 0 <= k < |ps| => [i] + ps[k])
  }

  /** The paths from x to v whose first edge is edge i. */
  ghost function PathsThrough(g: Dag, x: nat, v: nat, i: nat): seq<seq<nat>>
    requires i < |g.edges|
    decreases Height(g, x), i, 0
  {
    var e := g.edges[i];
    if e.to != x then []
    else (if e.from == v then [[i]] else []) + Prefixed(i, Paths(g, e.from, v))
  }

  /** The paths from x to v whose first edge is among the first n. */
  ghost function PathsUpTo(g: Dag, x: nat, v: nat, n: nat): seq<seq<nat>>
    requires n <= |g.edges|
    decreases Height(g, x), n
  {
    if n == 0 then [] else PathsUpTo(g, x, v, n - 1) + PathsThrough(g, x, v, n - 1)
  }

  ghost function Paths(g: Dag, x: nat, v: nat): seq<seq<nat>>
    decreases Height(g, x), |g.edges| + 1
  {
    PathsUpTo(g, x, v, |g.edges|)
  }

  lemma IsPathTail(edges: seq<Edge>, x: nat, v: nat, i: nat, rest: seq<nat>)
    requires i < |edges| && edges[i].to == x
    ensures rest != [] ==> (IsPath(edges, x, v, [i] + rest) <==> IsPath(edges, edges[i].from, v, rest))
    ensures IsPath(edges, x, v, [i]) <==> edges[i].from == v
  {
    assert ([i] + rest)[1..] == rest;
  }

  lemma InPrefixed(i: nat, ps: seq<seq<nat>>, p: seq<nat>)
    ensures p in Prefixed(i, ps) <==> p != [] && p[0] == i && p[1..] in ps
  {
    if p in Prefixed(i, ps) {
      var k :| 0 <= k < |ps| && p == [i] + ps[k];
      assert p[1..] == ps[k];
    }
    if p != [] && p[0] == i && p[1..] in ps {
      var k :| 0 <= k < |ps| && ps[k] == p[1..];
      assert Prefixed(i, ps)[k] == p;
    }
  }

  lemma {:induction false} ListedPathsThrough(g: Dag, x: nat, v: nat, i: nat, p: seq<nat>)
    requires i < |g.edges|
    ensures p in PathsThrough(g, x, v, i) <==> IsPath(g.edges, x, v, p) && p[0] == i
    decreases Height(g, x), i, 0
  {
    var e := g.edges[i];
    if e.to == x && p != [] && p[0] == i {
      var rest := p[1..];
      assert p == [i] + rest && (rest == [] ==> p == [i]) && (rest != [] ==> p != [i]);
      IsPathTail(g.edges, x, v, i, rest);
      InPrefixed(i, Paths(g, e.from, v), p);
      ListedPathsUpTo(g, e.from, v, |g.edges|, rest);
    } else if e.to == x {
      InPrefixed(i, Paths(g, e.from, v), p);
    }
  }

  lemma {:induction false} ListedPathsUpTo(g: Dag, x: nat, v: nat, n: nat, p: seq<nat>)
    requires n <= |g.edges|
    ensures p in PathsUpTo(g, x, v, n) <==> IsPath(g.edges, x, v, p) && p[0] < n
    decreases Height(g, x), n
  {
    if n > 0 {
      ListedPathsUpTo(g, x, v, n - 1, p);
      ListedPathsThrough(g, x, v, n - 1, p);
    }
  }

  ghost predicate NoDuplicates<T>(s: seq<T>) {
    forall i, j :: 0 <= i < j < |s| ==> s[i] != s[j]
  }

  lemma NoDuplicatesAppend<T>(a: seq<T>, b: seq<T>)
    requires NoDuplicates(a) && NoDuplicates(b)
    requires forall k :: 0 <= k < |a| ==> a[k] !in b
    ensures NoDuplicates(a + b)
  {
    forall i, j | 0 <= i < j < |a + b|
      ensures (a + b)[i] != (a + b)[j]
    {
      if i < |a| <= j {
        assert (a + b)[i] in a && (a + b)[j] in b;
      }
    }
  }

  lemma {:induction false} PathsThroughAreDistinct(g: Dag, x: nat, v: nat, i: nat)
    requires i < |g.edges|
    ensures NoDuplicates(PathsThrough(g, x, v, i))
    decreases Height(g, x), i, 0
  {
    var e := g.edges[i];
    if e.to == x {
      var rest := PathsUpTo(g, e.from, v, |g.edges|);
      PathsUpToAreDistinct(g, e.from, v, |g.edges|);
      var ps := Prefixed(i, rest);
      forall k, l | 0 <= k < l < |ps|
        ensures ps[k] != ps[l]
      {
        assert ps[k][1..] == rest[k] && ps[l][1..] == rest[l];
      }
      forall k | 0 <= k < |ps|
        ensures ps[k] != [i]
      {
        ListedPathsUpTo(g, e.from, v, |g.edges|, rest[k]);
      }
      NoDuplicatesAppend(if e.from == v then [[i]] else [], ps);
    }
  }

  lemma {:induction false} PathsUpToAreDistinct(g: Dag, x: nat, v: nat, n: nat)
    requires n <= |g.edges|
    ensures NoDuplicates(PathsUpTo(g, x, v, n))
    decreases Height(g, x), n
  {
    if n > 0 {
      PathsUpToAreDistinct(g, x, v, n - 1);
      PathsThroughAreDistinct(g, x, v, n - 1);
      var before := PathsUpTo(g, x, v, n - 1);
      forall k | 0 <= k < |before|
        ensures before[k] !in PathsThrough(g, x, v, n - 1)
      {
        var p := before[k];
        ListedPathsUpTo(g, x, v, n - 1, p);
        ListedPathsThrough(g, x, v, n - 1, p);
      }
      NoDuplicatesAppend(PathsUpTo(g, x, v, n - 1), PathsThrough(g, x, v, n - 1));
    }
  }

  /** `Paths` lists every path from x to v, and each once. */
  lemma PathsListsEachPathOnce(g: Dag, x: nat, v: nat)
    ensures NoDuplicates(Paths(g, x, v))
    ensures forall p :: p in Paths(g, x, v) <==> IsPath(g.edges, x, v, p)
  {
    PathsUpToAreDistinct(g, x, v, |g.edges|);
    forall p
      ensures p in Paths(g, x, v) <==> IsPath(g.edges, x, v, p)
    {
      ListedPathsUpTo(g, x, v, |g.edges|, p);
    }
  }

  // ---------- Sums over queues ----------

  ghost function PathsFrom(g: Dag, queue: seq<nat>, v: nat): nat {
    if queue == [] then 0 else PathsFrom(g, queue[..|queue| - 1], v) + |Paths(g, queue[|queue| - 1], v)|
  }

  lemma {:induction false} PathsFromAppend(g: Dag, a: seq<nat>, b: seq<nat>, v: nat)
    ensures PathsFrom(g, a + b, v) == PathsFrom(g, a, v) + PathsFrom(g, b, v)
  {
    if b == [] {
      assert a + b == a;
    } else {
      PathsFromAppend(g, a, b[..|b| - 1], v);
      assert (a + b)[..|a + b| - 1] == a + b[..|b| - 1];
    }
  }

  lemma OneInQueue(g: Dag, x: nat, v: nat)
    ensures PathsFrom(g, [x], v) == |Paths(g, x, v)|
    ensures QueueWeight(g, [x]) == Weight(g, x)
  {
    assert [x][..0] == [];
    assert PathsFrom(g, [], v) == 0;
    assert QueueWeight(g, []) == 0;
  }

  lemma CountPathsThrough(g: Dag, x: nat, v: nat, i: nat)
    requires i < |g.edges|
    ensures |PathsThrough(g, x, v, i)| ==
            if g.edges[i].to == x then (if g.edges[i].from == v then 1 else 0) + |Paths(g, g.edges[i].from, v)| else 0
  {
  }

  /** What one more child adds to the count. */
  lemma CountOneMore(g: Dag, cs: seq<nat>, c: nat, v: nat)
    ensures multiset(cs + [c])[v] + PathsFrom(g, cs + [c], v) ==
            multiset(cs)[v] + PathsFrom(g, cs, v) + (if c == v then 1 else 0) + |Paths(g, c, v)|
  {
    PathsFromAppend(g, cs, [c], v);
    OneInQueue(g, c, v);
  }

  lemma OneEdgeMore(edges: seq<Edge>, e: Edge, x: nat)
    ensures Children(edges + [e], x) == Children(edges, x) + if e.to == x then [e.from] else []
  {
    assert (edges + [e])[..|edges|] == edges;
  }

  lemma ChildrenOfOneMore(edges: seq<Edge>, n: nat, x: nat)
    requires 0 < n <= |edges|
    ensures Children(edges[..n], x) ==
            if edges[n - 1].to == x then Children(edges[..n - 1], x) + [edges[n - 1].from] else Children(edges[..n - 1], x)
  {
    assert edges[..n][..n - 1] == edges[..n - 1];
  }

  lemma {:induction false} CountPathsUpTo(g: Dag, x: nat, v: nat, n: nat)
    requires n <= |g.edges|
    ensures
      var cs := Children(g.edges[..n], x);
      |PathsUpTo(g, x, v, n)| == multiset(cs)[v] + PathsFrom(g, cs, v)
    decreases n
  {
    if n > 0 {
      CountPathsUpTo(g, x, v, n - 1);
      CountPathsThrough(g, x, v, n - 1);
      ChildrenOfOneMore(g.edges, n, x);
      CountOneMore(g, Children(g.edges[..n - 1], x), g.edges[n - 1].from, v);
    }
  }

  /** The paths from x to v: one for each edge from v to x, and those that go on from each child. */
  lemma CountPaths(g: Dag, x: nat, v: nat)
    ensures |Paths(g, x, v)| == multiset(Children(g.edges, x))[v] + PathsFrom(g, Children(g.edges, x), v)
  {
    CountPathsUpTo(g, x, v, |g.edges|);
    assert g.edges[..|g.edges|] == g.edges;
  }

  // ---------- Counting paths by their last edge ----------

  /** Over the edges of es that leave v: one for an edge to x, and the paths from x to where the edge leads. */
  ghost function PathsByLast(g: Dag, es: seq<Edge>, x: nat, v: nat): nat {
    if es == [] then 0
    else
      var e := es[|es| - 1];
      var before := PathsByLast(g, es[..|es| - 1], x, v);
      if e.from == v then before + (if e.to == x then 1 else 0) + |Paths(g, x, e.to)| else before
  }

  lemma {:induction false} PathsByLastAppend(g: Dag, a: seq<Edge>, b: seq<Edge>, x: nat, v: nat)
    ensures PathsByLast(g, a + b, x, v) == PathsByLast(g, a, x, v) + PathsByLast(g, b, x, v)
  {
    if b == [] {
      assert a + b == a;
    } else {
      PathsByLastAppend(g, a, b[..|b| - 1], x, v);
      assert (a + b)[..|a + b| - 1] == a + b[..|b| - 1];
    }
  }

  /** How many of the edges leave v. */
  function Leaving(es: seq<Edge>, v: nat): nat {
    if es == [] then 0 else Leaving(es[..|es| - 1], v) + if es[|es| - 1].from == v then 1 else 0
  }

  lemma {:induction false} NoEdgeNoPath(g: Dag, es: seq<Edge>, x: nat, v: nat)
    requires Leaving(es, v) == 0
    ensures PathsByLast(g, es, x, v) == 0
  {
    if es != [] {
      NoEdgeNoPath(g, es[..|es| - 1], x, v);
    }
  }

  /** The same sum for paths that start with one of the nodes cs. */
  ghost function PathsByBoth(g: Dag, es: seq<Edge>, cs: seq<nat>, v: nat): nat {
    if es == [] then 0
    else
      var e := es[|es| - 1];
      var before := PathsByBoth(g, es[..|es| - 1], cs, v);
      if e.from == v then before + multiset(cs)[e.to] + PathsFrom(g, cs, e.to) else before
  }

  lemma CountOneElement<T>(s: seq<T>, x: T, v: T)
    ensures multiset(s + [x])[v] == multiset(s)[v] + if x == v then 1 else 0
  {
  }

  lemma {:induction false} OneMoreFirst(g: Dag, es: seq<Edge>, cs: seq<nat>, c: nat, v: nat)
    ensures PathsByBoth(g, es, cs + [c], v) == PathsByBoth(g, es, cs, v) + PathsByLast(g, es, c, v)
  {
    if es != [] {
      OneMoreFirst(g, es[..|es| - 1], cs, c, v);
      CountOneMore(g, cs, c, es[|es| - 1].to);
    }
  }

  lemma {:induction false} NoFirstNoPath(g: Dag, es: seq<Edge>, cs: seq<nat>, v: nat)
    requires cs == []
    ensures PathsByBoth(g, es, cs, v) == 0
  {
    if es != [] {
      NoFirstNoPath(g, es[..|es| - 1], cs, v);
    }
  }

  lemma {:induction false} FirstThenLast(g: Dag, es: seq<Edge>, x: nat, v: nat)
    ensures PathsByLast(g, es, x, v) == multiset(es)[Edge(v, x)] + PathsByBoth(g, es, Children(g.edges, x), v)
  {
    if es != [] {
      var before, e := es[..|es| - 1], es[|es| - 1];
      FirstThenLast(g, before, x, v);
      CountPaths(g, x, e.to);
      assert es == before + [e];
      CountOneElement(before, e, Edge(v, x));
    }
  }

  lemma {:induction false} ChildrenCountEdges(es: seq<Edge>, x: nat, v: nat)
    ensures multiset(Children(es, x))[v] == multiset(es)[Edge(v, x)]
  {
    if es != [] {
      var before, e := es[..|es| - 1], es[|es| - 1];
      ChildrenCountEdges(before, x, v);
      assert es == before + [e];
      CountOneElement(before, e, Edge(v, x));
      CountOneElement(Children(before, x), e.from, v);
    }
  }

  lemma {:induction false} PathsOfChildren(g: Dag, cs: seq<nat>, v: nat)
    requires forall c :: c in cs ==> |Paths(g, c, v)| == PathsByLast(g, g.edges, c, v)
    ensures PathsByBoth(g, g.edges, cs, v) == PathsFrom(g, cs, v)
  {
    if cs == [] {
      NoFirstNoPath(g, g.edges, cs, v);
    } else {
      var before, c := cs[..|cs| - 1], cs[|cs| - 1];
      PathsOfChildren(g, before, v);
      assert cs == before + [c];
      OneMoreFirst(g, g.edges, before, c, v);
    }
  }

  /** The paths from x to v, counted by the edge they end with. */
  lemma {:induction false} CountPathsByLast(g: Dag, x: nat, v: nat)
    ensures |Paths(g, x, v)| == PathsByLast(g, g.edges, x, v)
    decreases Height(g, x)
  {
    var cs := Children(g.edges, x);
    forall c | c in cs
      ensures |Paths(g, c, v)| == PathsByLast(g, g.edges, c, v)
    {
      ChildHasEdge(g.edges, x, c);
      assert Edge(c, x) in g.edges;
      CountPathsByLast(g, c, v);
    }
    PathsOfChildren(g, cs, v);
    CountPaths(g, x, v);
    FirstThenLast(g, g.edges, x, v);
    ChildrenCountEdges(g.edges, x, v);
  }

  /** One plus the number of paths that start at x: how often the walk pops a node because x was queued. */
  ghost function Weight(g: Dag, x: nat): nat
    decreases Height(g, x), |g.edges| + 1
  {
    1 + WeightUpTo(g, x, |g.edges|)
  }

  ghost function WeightUpTo(g: Dag, x: nat, n: nat): nat
    requires n <= |g.edges|
    decreases Height(g, x), n
  {
    if n == 0 then 0
    else WeightUpTo(g, x, n - 1) + (if g.edges[n - 1].to == x then Weight(g, g.edges[n - 1].from) else 0)
  }

  ghost function QueueWeight(g: Dag, queue: seq<nat>): nat {
    if queue == [] then 0 else QueueWeight(g, queue[..|queue| - 1]) + Weight(g, queue[|queue| - 1])
  }

  lemma {:induction false} QueueWeightAppend(g: Dag, a: seq<nat>, b: seq<nat>)
    ensures QueueWeight(g, a + b) == QueueWeight(g, a) + QueueWeight(g, b)
  {
    if b == [] {
      assert a + b == a;
    } else {
      QueueWeightAppend(g, a, b[..|b| - 1]);
      assert (a + b)[..|a + b| - 1] == a + b[..|b| - 1];
    }
  }

  lemma {:induction false} WeightUpToIsChildren(g: Dag, x: nat, n: nat)
    requires n <= |g.edges|
    ensures WeightUpTo(g, x, n) == QueueWeight(g, Children(g.edges[..n], x))
    decreases n
  {
    if n > 0 {
      WeightUpToIsChildren(g, x, n - 1);
      assert g.edges[..n][..n - 1] == g.edges[..n - 1];
      if g.edges[n - 1].to == x {
        QueueWeightAppend(g, Children(g.edges[..n - 1], x), [g.edges[n - 1].from]);
        OneInQueue(g, g.edges[n - 1].from, 0);
        assert Children(g.edges[..n], x) == Children(g.edges[..n - 1], x) + [g.edges[n - 1].from];
      }
    }
  }

  lemma WeightOfNode(g: Dag, x: nat)
    ensures Weight(g, x) == 1 + QueueWeight(g, Children(g.edges, x))
  {
    WeightUpToIsChildren(g, x, |g.edges|);
    assert g.edges[..|g.edges|] == g.edges;
  }
}
