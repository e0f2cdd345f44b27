/**
 How the executer builds its graph from the state leaves that transactions declare. The construction is
 generic in the keys of `lastToModifyLeaf`, because the source uses the address of its loop variable:
 `AddressKeys` below is the map as written (Go 1.18, one variable for each transaction's loop), and using
 the leaves themselves as keys is the map its comments describe.
 */
module Construction {
  import opened Graphs
  import opened Walks
  import opened Ranks

  /** deps[i] are the keys of transaction i, in the order it declares them. */
  type Deps<K> = seq<seq<K>>

  /** The last of the first n transactions that declares the key, as a node; the root if there is none. */
  function Writer<K(==)>(deps: Deps<K>, n: nat, key: K): (w: nat)
    requires n <= |deps|
    ensures w <= n
  {
    if n == 0 then ROOT else if key in deps[n - 1] then n else Writer(deps, n - 1, key)
  }

  lemma {:induction false} WriterDeclares<K>(deps: Deps<K>, n: nat, key: K)
    requires n <= |deps| && Writer(deps, n, key) > 0
    ensures key in deps[Writer(deps, n, key) - 1]
  {
    if key !in deps[n - 1] {
      WriterDeclares(deps, n - 1, key);
    }
  }

  lemma {:induction false} WriterIsLast<K>(deps: Deps<K>, n: nat, key: K, i: nat)
    requires i < n <= |deps| && key in deps[i]
    ensures i < Writer(deps, n, key)
  {
    if key !in deps[n - 1] {
      WriterIsLast(deps, n - 1, key, i);
    }
  }

  /** What the j-th leaf of transaction i makes it depend on: itself, if the key was declared before. */
  function Dependency<K(==)>(deps: Deps<K>, i: nat, j: nat): nat
    requires i < |deps| && j < |deps[i]|
  {
    if deps[i][j] in deps[i][..j] then i + 1 else Writer(deps, i, deps[i][j])
  }

  /** The edges for the first n leaves of transaction i. */
  function LeafEdges<K(==)>(deps: Deps<K>, i: nat, n: nat): (r: seq<Edge>)
    requires i < |deps| && n <= |deps[i]|
    ensures |r| == n
  {
    if n == 0 then [] else LeafEdges(deps, i, n - 1) + [Edge(i + 1, Dependency(deps, i, n - 1))]
  }

  function TxEdges<K(==)>(deps: Deps<K>, i: nat): seq<Edge>
    requires i < |deps|
  {
    if deps[i] == [] then [Edge(i + 1, ROOT)] else LeafEdges(deps, i, |deps[i]|)
  }

  /** What each transaction inserts. */
  function Groups<K(==)>(deps: Deps<K>): nat -> seq<Edge> {
    (i: nat) => if i < |deps| then TxEdges(deps, i) else []
  }

  function Concat(group: nat -> seq<Edge>, n: nat): seq<Edge> {
    if n == 0 then [] else Concat(group, n - 1) + group(n - 1)
  }

  /** The edges of the first n transactions. */
  function EdgesUpTo<K(==)>(deps: Deps<K>, n: nat): seq<Edge>
    requires n <= |deps|
  {
    Concat(Groups(deps), n)
  }

  function AllEdges<K(==)>(deps: Deps<K>): seq<Edge> {
    EdgesUpTo(deps, |deps|)
  }

  // ---------- The construction loop ----------

  /** The last writer of the key once transaction i has declared its first j keys. */
  function WriterDuring<K(==)>(deps: Deps<K>, i: nat, j: nat, key: K): nat
    requires i < |deps| && j <= |deps[i]|
  {
    if key in deps[i][..j] then i + 1 else Writer(deps, i, key)
  }

  ghost predicate MapAfter<K(!new)>(m: map<K, nat>, deps: Deps<K>, n: nat)
    requires n <= |deps|
  {
    forall key :: if key in m then m[key] == Writer(deps, n, key) != ROOT else Writer(deps, n, key) == ROOT
  }

  ghost predicate MapDuring<K(!new)>(m: map<K, nat>, deps: Deps<K>, i: nat, j: nat)
    requires i < |deps| && j <= |deps[i]|
  {
    forall key :: if key in m then m[key] == WriterDuring(deps, i, j, key) != ROOT
                  else WriterDuring(deps, i, j, key) == ROOT
  }

  lemma MapBegins<K(!new)>(m: map<K, nat>, deps: Deps<K>, i: nat)
    requires i < |deps| && MapAfter(m, deps, i)
    ensures MapDuring(m, deps, i, 0)
  {
  }

  lemma MapEnds<K(!new)>(m: map<K, nat>, deps: Deps<K>, i: nat)
    requires i < |deps| && MapDuring(m, deps, i, |deps[i]|)
    ensures MapAfter(m, deps, i + 1)
  {
    assert deps[i][..|deps[i]|] == deps[i];
  }

  lemma MapAdvances<K(!new)>(m: map<K, nat>, deps: Deps<K>, i: nat, j: nat)
    requires i < |deps| && j < |deps[i]| && MapDuring(m, deps, i, j)
    ensures MapDuring(m[deps[i][j] := i + 1], deps, i, j + 1)
    ensures Dependency(deps, i, j) == if deps[i][j] in m then m[deps[i][j]] else ROOT
  {
    assert deps[i][..j + 1] == deps[i][..j] + [deps[i][j]];
    assert WriterDuring(deps, i, j, deps[i][j]) == Dependency(deps, i, j);
  }

  lemma {:induction false} LeafEdgeAt<K>(deps: Deps<K>, i: nat, n: nat, j: nat)
    requires i < |deps| && j < n <= |deps[i]|
    ensures LeafEdges(deps, i, n)[j] == Edge(i + 1, Dependency(deps, i, j))
  {
    if j < n - 1 {
      LeafEdgeAt(deps, i, n - 1, j);
    }
  }

  lemma MapStarts<K(!new)>(m: map<K, nat>, deps: Deps<K>)
    requires m == map[]
    ensures MapAfter(m, deps, 0)
  {
  }

  /** The nodes of the first n transactions, in sequence order. */
  function TxNodes(n: nat): seq<nat> {
    if n == 0 then [] else TxNodes(n - 1) + [n]
  }

  lemma {:induction false} TxNodesInOrder(n: nat)
    ensures |TxNodes(n)| == n && forall i :: 0 <= i < n ==> TxNodes(n)[i] == i + 1
  {
    if n > 0 {
      TxNodesInOrder(n - 1);
    }
  }

  lemma {:induction false} EachNodeOnce(n: nat, v: nat)
    ensures multiset(TxNodes(n))[v] == if 0 < v <= n then 1 else 0
  {
    if n > 0 {
      EachNodeOnce(n - 1, v);
      CountOneElement(TxNodes(n - 1), n, v);
    }
  }

  lemma OneMoreTx<K>(deps: Deps<K>, i: nat)
    requires i < |deps|
    ensures TxNodes(i + 1) == TxNodes(i) + [i + 1]
    ensures EdgesUpTo(deps, i + 1) == EdgesUpTo(deps, i) + TxEdges(deps, i)
  {
  }

  class ExecutionGraph<K(==,!new)> {
    var nodes: seq<nat>
    var edges: seq<Edge>
    var lastToModifyLeaf: map<K, nat>

    constructor ()
      ensures nodes == [] && edges == [] && lastToModifyLeaf == map[]
    {
      nodes, edges, lastToModifyLeaf := [], [], map[];
    }

    /** Inserts every transaction, pointing it at the transactions it depends on. */
    method Build(deps: Deps<K>)
      requires nodes == [] && edges == [] && lastToModifyLeaf == map[]
      modifies this
      ensures nodes == TxNodes(|deps|)
      ensures edges == AllEdges(deps)
      ensures MapAfter(lastToModifyLeaf, deps, |deps|)
    {
      MapStarts(lastToModifyLeaf, deps);
      for i := 0 to |deps|
        invariant nodes == TxNodes(i)
        invariant edges == EdgesUpTo(deps, i)
        invariant MapAfter(lastToModifyLeaf, deps, i)
      {
        InsertTx(deps, i);
      }
    }

    /** One transaction: its node and its edges. */
    method InsertTx(deps: Deps<K>, i: nat)
      requires i < |deps| && MapAfter(lastToModifyLeaf, deps, i)
      requires nodes == TxNodes(i) && edges == EdgesUpTo(deps, i)
      modifies this
      ensures nodes == TxNodes(i + 1) && edges == EdgesUpTo(deps, i + 1)
      ensures MapAfter(lastToModifyLeaf, deps, i + 1)
    {
      OneMoreTx(deps, i);
      nodes := nodes + [i + 1];
      InsertEdges(deps, i);
    }

    /** Points transaction i at its dependencies, or at the root if it declares no leaf. */
    method InsertEdges(deps: Deps<K>, i: nat)
      requires i < |deps| && MapAfter(lastToModifyLeaf, deps, i)
      modifies this`edges, this`lastToModifyLeaf
      ensures edges == old(edges) + TxEdges(deps, i)
      ensures MapAfter(lastToModifyLeaf, deps, i + 1)
    {
      var node := i + 1;
      if |deps[i]| == 0 {
        edges := edges + [Edge(node, ROOT)];
        return;
      }
      MapBegins(lastToModifyLeaf, deps, i);
      for j := 0 to |deps[i]|
        invariant edges == old(edges) + LeafEdges(deps, i, j)
        invariant MapDuring(lastToModifyLeaf, deps, i, j)
      {
        var leaf := deps[i][j];
        var edge: Edge;
        if leaf !in lastToModifyLeaf {
          edge := Edge(node, ROOT);
        } else {
          edge := Edge(node, lastToModifyLeaf[leaf]);
        }
        MapAdvances(lastToModifyLeaf, deps, i, j);
        lastToModifyLeaf := lastToModifyLeaf[leaf := node];
        edges := edges + [edge];
      }
      MapEnds(lastToModifyLeaf, deps, i);
    }
  }

  // ---------- Which edges there are ----------

  lemma {:induction false} TxOfEdge<K>(deps: Deps<K>, n: nat, e: Edge) returns (i: nat)
    requires n <= |deps| && e in EdgesUpTo(deps, n)
    ensures i < n && e in TxEdges(deps, i)
  {
    if e in TxEdges(deps, n - 1) {
      i := n - 1;
    } else {
      i := TxOfEdge(deps, n - 1, e);
    }
  }

  lemma {:induction false} EdgeOfTx<K>(deps: Deps<K>, n: nat, i: nat, e: Edge)
    requires i < n <= |deps| && e in TxEdges(deps, i)
    ensures e in EdgesUpTo(deps, n)
  {
    var before, own := EdgesUpTo(deps, n - 1), TxEdges(deps, n - 1);
    if i < n - 1 {
      EdgeOfTx(deps, n - 1, i, e);
    }
    assert e in before || e in own;
    assert EdgesUpTo(deps, n) == before + own;
  }

  lemma LeafEdgeIsThere<K>(deps: Deps<K>, i: nat, j: nat)
    requires i < |deps| && j < |deps[i]|
    ensures Edge(i + 1, Dependency(deps, i, j)) in AllEdges(deps)
  {
    LeafEdgeAt(deps, i, |deps[i]|, j);
    EdgeOfTx(deps, |deps|, i, TxEdges(deps, i)[j]);
  }

  /** An edge is the one of a transaction without leaves, or that of some leaf. */
  lemma EdgeComesFrom<K>(deps: Deps<K>, e: Edge) returns (i: nat, j: nat)
    requires e in AllEdges(deps)
    ensures i < |deps| && e.from == i + 1
    ensures if deps[i] == [] then e.to == ROOT else j < |deps[i]| && e.to == Dependency(deps, i, j)
  {
    i := TxOfEdge(deps, |deps|, e);
    j := 0;
    if deps[i] != [] {
      j :| 0 <= j < |TxEdges(deps, i)| && e == TxEdges(deps, i)[j];
      LeafEdgeAt(deps, i, |deps[i]|, j);
    }
  }

  /** Every edge goes from a transaction to an earlier one, to the root, or to itself when it repeats a key. */
  lemma EdgeGoesBack<K>(deps: Deps<K>, e: Edge)
    requires e in AllEdges(deps)
    ensures 0 < e.from <= |deps| && e.to <= e.from
    ensures e.to == e.from ==> !NoDuplicates(deps[e.from - 1])
  {
    var i, j := EdgeComesFrom(deps, e);
    if e.to == e.from {
      var k :| 0 <= k < j && deps[i][k] == deps[i][j];
    }
  }

  /** Each transaction has an edge to an earlier one or to the root. */
  lemma FirstEdge<K>(deps: Deps<K>, i: nat) returns (w: nat)
    requires i < |deps|
    ensures w <= i && Edge(i + 1, w) in AllEdges(deps)
  {
    if deps[i] == [] {
      w := ROOT;
      EdgeOfTx(deps, |deps|, i, Edge(i + 1, ROOT));
    } else {
      w := Dependency(deps, i, 0);
      LeafEdgeIsThere(deps, i, 0);
    }
  }

  lemma {:induction false} EveryTxDependsOnRoot<K>(deps: Deps<K>, i: nat)
    requires i < |deps|
    ensures DependsOn(AllEdges(deps), i + 1, ROOT)
  {
    var edges := AllEdges(deps);
    var w := FirstEdge(deps, i);
    EdgeIsDependency(edges, i + 1, w);
    if w != ROOT {
      EveryTxDependsOnRoot(deps, w - 1);
      DependencyIsTransitive(edges, i + 1, w, ROOT);
    }
  }

  /** With distinct keys in each transaction, node numbers rank the graph. */
  lemma DistinctKeysRank<K>(deps: Deps<K>) returns (g: Dag)
    requires forall i :: 0 <= i < |deps| ==> NoDuplicates(deps[i])
    ensures g.edges == AllEdges(deps) && Acyclic(g.edges)
  {
    var ranked := Dag(AllEdges(deps), x => x, |deps|);
    forall e | e in ranked.edges
      ensures ranked.rank(e.to) < ranked.rank(e.from) <= ranked.bound
    {
      EdgeGoesBack(deps, e);
    }
    g := ranked;
    RankedIsAcyclic(g);
  }

  /** A transaction that declares a key twice depends on itself, and the walk reaches it for ever. */
  lemma RepeatedKeyNeverEnds<K>(deps: Deps<K>, i: nat, k: nat, j: nat)
    requires i < |deps| && k < j < |deps[i]| && deps[i][k] == deps[i][j]
    ensures !Halts(AllEdges(deps))
  {
    assert deps[i][..j][k] == deps[i][j];
    assert Dependency(deps, i, j) == i + 1;
    LeafEdgeIsThere(deps, i, j);
    EdgeIsDependency(AllEdges(deps), i + 1, i + 1);
    EveryTxDependsOnRoot(deps, i);
    ReachableCycleNeverEnds(AllEdges(deps), i + 1);
  }

  /** The walk on a constructed graph ends if and only if no transaction declares a key twice. */
  lemma BuiltWalkHaltsExactly<K>(deps: Deps<K>)
    ensures Halts(AllEdges(deps)) <==> forall i :: 0 <= i < |deps| ==> NoDuplicates(deps[i])
  {
    if i :| 0 <= i < |deps| && !NoDuplicates(deps[i]) {
      var k, j :| 0 <= k < j < |deps[i]| && deps[i][k] == deps[i][j];
      RepeatedKeyNeverEnds(deps, i, k, j);
    } else {
      var g := DistinctKeysRank(deps);
      AcyclicHalts(AllEdges(deps));
    }
  }

  /** Every transaction is executed, as many times as there are paths from the root to it. */
  lemma EveryTxRuns<K>(deps: Deps<K>, g: Dag, executed: seq<seq<nat>>, i: nat)
    requires g.edges == AllEdges(deps) && EndsWith(g.edges, executed) && i < |deps|
    ensures Runs(executed, i + 1)
    ensures Executions(executed, i + 1) == |Paths(g, ROOT, i + 1)| >= 1
  {
    EveryTxDependsOnRoot(deps, i);
    DependentsOfRootRun(g.edges, executed, i + 1);
    ExecutionsArePaths(g, executed, i + 1);
    var p :| IsPath(g.edges, ROOT, i + 1, p);
    PathsListsEachPathOnce(g, ROOT, i + 1);
  }

  lemma OneLeafEdges<K>(deps: Deps<K>, i: nat)
    requires i < |deps| && |deps[i]| == 1
    ensures TxEdges(deps, i) == [Edge(i + 1, Writer(deps, i, deps[i][0]))]
  {
    LeafEdgeAt(deps, i, 1, 0);
  }

  // ---------- Conflict ordering ----------

  /** Transaction i comes before transaction j, and both declare the key. */
  ghost predicate DeclareBoth<K>(deps: Deps<K>, i: nat, j: nat, key: K) {
    i < j < |deps| && key in deps[i] && key in deps[j]
  }

  /** A transaction points at the last earlier one that declares a key of its own. */
  lemma WriterEdge<K>(deps: Deps<K>, j: nat, key: K)
    requires j < |deps| && key in deps[j]
    ensures Edge(j + 1, Writer(deps, j, key)) in AllEdges(deps)
  {
    var pos := FirstPosition(deps[j], key);
    LeafEdgeIsThere(deps, j, pos);
  }

  /** The later of two transactions that declare the same key depends on the earlier one. */
  lemma {:induction false} ConflictIsDependency<K>(deps: Deps<K>, i: nat, j: nat, key: K)
    requires DeclareBoth(deps, i, j, key)
    ensures DependsOn(AllEdges(deps), j + 1, i + 1)
    decreases j
  {
    var edges := AllEdges(deps);
    var w := Writer(deps, j, key);
    WriterIsLast(deps, j, key, i);
    WriterDeclares(deps, j, key);
    WriterEdge(deps, j, key);
    EdgeIsDependency(edges, j + 1, w);
    if w != i + 1 {
      ConflictIsDependency(deps, i, w - 1, key);
      DependencyIsTransitive(edges, j + 1, w, i + 1);
    }
  }

  function FirstPosition<K(==)>(keys: seq<K>, key: K): (p: nat)
    requires key in keys
    ensures p < |keys| && keys[p] == key && key !in keys[..p]
  {
    if keys[0] == key then 0
    else
      assert keys == [keys[0]] + keys[1..];
      var p := FirstPosition(keys[1..], key);
      assert keys[..p + 1] == [keys[0]] + keys[1..][..p];
      p + 1
  }

  /** So, when the walk ends, it runs the later transaction once more after the last run of the earlier one. */
  lemma ConflictsEndInOrder<K>(deps: Deps<K>, executed: seq<seq<nat>>, i: nat, j: nat, key: K)
    requires EndsWith(AllEdges(deps), executed)
    requires DeclareBoth(deps, i, j, key)
    ensures EndsBefore(executed, i + 1, j + 1)
  {
    EveryTxDependsOnRoot(deps, i);
    DependentsOfRootRun(AllEdges(deps), executed, i + 1);
    ConflictIsDependency(deps, i, j, key);
    var path :| IsPath(AllEdges(deps), i + 1, j + 1, path);
    LastRunFollowsDependencies(AllEdges(deps), executed, i + 1, j + 1, path);
  }

  // ---------- How often a transaction is executed ----------

  /** Where the walk has ended, the graph can be ranked. */
  lemma RankOf<K>(deps: Deps<K>, executed: seq<seq<nat>>) returns (g: Dag)
    requires EndsWith(AllEdges(deps), executed)
    ensures g.edges == AllEdges(deps)
  {
    BuiltWalkHaltsExactly(deps);
    g := DistinctKeysRank(deps);
  }

  /** Executions of what the first n leaves of transaction i depend on; the root counts as executed once. */
  function RunsOfDependencies<K(==)>(deps: Deps<K>, executed: seq<seq<nat>>, i: nat, n: nat): nat
    requires i < |deps| && n <= |deps[i]|
  {
    Sum(LeafRuns(deps, executed, i), n)
  }

  /** Executions of what leaf j of transaction i depends on. */
  function LeafRuns<K(==)>(deps: Deps<K>, executed: seq<seq<nat>>, i: nat): nat -> nat
    requires i < |deps|
  {
    (j: nat) => if j < |deps[i]| then RunsOf(executed, Dependency(deps, i, j)) else 0
  }

  function RunsOf(executed: seq<seq<nat>>, d: nat): nat {
    if d == ROOT then 1 else Executions(executed, d)
  }

  function Sum(f: nat -> nat, n: nat): nat {
    if n == 0 then 0 else Sum(f, n - 1) + f(n - 1)
  }

  lemma {:induction false} SumAtLeast(f: nat -> nat, n: nat)
    requires forall j :: 0 <= j < n ==> f(j) >= 1
    ensures Sum(f, n) >= n
  {
    if n > 0 {
      SumAtLeast(f, n - 1);
      assert f(n - 1) >= 1;
    }
  }

  lemma RootHasNoPath(g: Dag)
    ensures |Paths(g, ROOT, ROOT)| == 0
  {
    RankedIsAcyclic(g);
    PathsListsEachPathOnce(g, ROOT, ROOT);
    var ps := Paths(g, ROOT, ROOT);
    if |ps| > 0 {
      assert ps[0] in ps;
      assert DependsOn(g.edges, ROOT, ROOT);
    }
  }

  lemma OneEdgeLeaves(es: seq<Edge>, e: Edge, v: nat)
    ensures Leaving(es + [e], v) == Leaving(es, v) + if e.from == v then 1 else 0
  {
    assert (es + [e])[..|es|] == es;
  }

  lemma {:induction false} NoLeafEdgeLeaves<K>(deps: Deps<K>, i: nat, n: nat, v: nat)
    requires i < |deps| && n <= |deps[i]| && v != i + 1
    ensures Leaving(LeafEdges(deps, i, n), v) == 0
  {
    if n > 0 {
      NoLeafEdgeLeaves(deps, i, n - 1, v);
      OneEdgeLeaves(LeafEdges(deps, i, n - 1), Edge(i + 1, Dependency(deps, i, n - 1)), v);
    }
  }

  /** The edges of a transaction leave its own node only. */
  lemma NoTxEdgeLeaves<K>(deps: Deps<K>, i: nat, v: nat)
    requires i < |deps| && v != i + 1
    ensures Leaving(TxEdges(deps, i), v) == 0
  {
    if deps[i] == [] {
      OneEdgeLeaves([], Edge(i + 1, ROOT), v);
      assert [] + [Edge(i + 1, ROOT)] == [Edge(i + 1, ROOT)];
    } else {
      NoLeafEdgeLeaves(deps, i, |deps[i]|, v);
    }
  }

  ghost predicate LeavesOnly(group: nat -> seq<Edge>, i: nat, v: nat) {
    i + 1 != v ==> Leaving(group(i), v) == 0
  }

  lemma PathsOverOneMore(g: Dag, group: nat -> seq<Edge>, n: nat, x: nat, v: nat)
    ensures PathsByLast(g, Concat(group, n + 1), x, v) ==
            PathsByLast(g, Concat(group, n), x, v) + PathsByLast(g, group(n), x, v)
  {
    PathsByLastAppend(g, Concat(group, n), group(n), x, v);
  }

  /** The paths that end with an edge of node v: only the edges of its own group count. */
  lemma {:induction false} PathsOverGroups(g: Dag, group: nat -> seq<Edge>, n: nat, x: nat, v: nat)
    requires v > 0 && forall i :: LeavesOnly(group, i, v)
    ensures PathsByLast(g, Concat(group, n), x, v) == if v <= n then PathsByLast(g, group(v - 1), x, v) else 0
  {
    if n == 0 {
      NoEdgeNoPath(g, [], x, v);
    } else {
      PathsOverGroups(g, group, n - 1, x, v);
      PathsOverOneMore(g, group, n - 1, x, v);
      assert LeavesOnly(group, n - 1, v);
      if n != v {
        NoEdgeNoPath(g, group(n - 1), x, v);
      }
    }
  }

  lemma GroupsLeaveOnly<K>(deps: Deps<K>, group: nat -> seq<Edge>, i: nat, v: nat)
    requires group == Groups(deps)
    ensures LeavesOnly(group, i, v)
  {
    if i < |deps| && i + 1 != v {
      NoTxEdgeLeaves(deps, i, v);
    }
  }

  lemma AllGroupsLeaveOnly<K>(deps: Deps<K>, group: nat -> seq<Edge>, v: nat)
    requires group == Groups(deps)
    ensures forall i :: LeavesOnly(group, i, v)
  {
    forall i
      ensures LeavesOnly(group, i, v)
    {
      GroupsLeaveOnly(deps, group, i, v);
    }
  }

  lemma GroupIs<K>(deps: Deps<K>, i: nat, group: nat -> seq<Edge>)
    requires i < |deps| && group == Groups(deps)
    ensures group(i) == TxEdges(deps, i)
  {
  }

  lemma GroupsMakeAll<K>(deps: Deps<K>, group: nat -> seq<Edge>)
    requires group == Groups(deps)
    ensures AllEdges(deps) == Concat(group, |deps|)
  {
  }

  lemma PathsOverTxEdges<K>(deps: Deps<K>, g: Dag, v: nat, all: seq<Edge>, own: seq<Edge>)
    requires 0 < v <= |deps| && all == AllEdges(deps) && own == TxEdges(deps, v - 1)
    ensures PathsByLast(g, all, ROOT, v) == PathsByLast(g, own, ROOT, v)
  {
    var group := Groups(deps);
    GroupsMakeAll(deps, group);
    GroupIs(deps, v - 1, group);
    AllGroupsLeaveOnly(deps, group, v);
    PathsOverGroups(g, group, |deps|, ROOT, v);
  }

  lemma OneLastEdge(g: Dag, es: seq<Edge>, e: Edge, x: nat)
    ensures PathsByLast(g, es + [e], x, e.from) ==
            PathsByLast(g, es, x, e.from) + (if e.to == x then 1 else 0) + |Paths(g, x, e.to)|
  {
    assert (es + [e])[..|es|] == es;
  }

  lemma {:induction false} PathsOverLeafEdges<K>(deps: Deps<K>, g: Dag, executed: seq<seq<nat>>, i: nat, n: nat)
    requires g.edges == AllEdges(deps) && EndsWith(g.edges, executed)
    requires i < |deps| && n <= |deps[i]|
    ensures PathsByLast(g, LeafEdges(deps, i, n), ROOT, i + 1) == RunsOfDependencies(deps, executed, i, n)
  {
    if n > 0 {
      PathsOverLeafEdges(deps, g, executed, i, n - 1);
      assert LeafRuns(deps, executed, i)(n - 1) == RunsOf(executed, Dependency(deps, i, n - 1));
      var d := Dependency(deps, i, n - 1);
      OneLastEdge(g, LeafEdges(deps, i, n - 1), Edge(i + 1, d), ROOT);
      PathsToDependency(g, executed, d);
    }
  }

  lemma PathsToDependency(g: Dag, executed: seq<seq<nat>>, d: nat)
    requires EndsWith(g.edges, executed)
    ensures (if d == ROOT then 1 else 0) + |Paths(g, ROOT, d)| == RunsOf(executed, d)
  {
    RootHasNoPath(g);
    ExecutionsArePaths(g, executed, d);
  }

  /**
   A transaction is executed as often as everything its leaves depend on taken together, the root counting
   once, and once if it declares no leaf.
   */
  lemma ExecutionsAddUp<K>(deps: Deps<K>, executed: seq<seq<nat>>, i: nat)
    requires EndsWith(AllEdges(deps), executed) && i < |deps|
    ensures Executions(executed, i + 1) ==
            if deps[i] == [] then 1 else RunsOfDependencies(deps, executed, i, |deps[i]|)
  {
    var g := RankOf(deps, executed);
    ExecutionsOverTxEdges(deps, g, executed, i + 1);
    PathsOverEdgesOf(deps, g, executed, i, TxEdges(deps, i));
  }

  lemma PathsOverEdgesOf<K>(deps: Deps<K>, g: Dag, executed: seq<seq<nat>>, i: nat, es: seq<Edge>)
    requires g.edges == AllEdges(deps) && EndsWith(g.edges, executed) && i < |deps| && es == TxEdges(deps, i)
    ensures PathsByLast(g, es, ROOT, i + 1) ==
            if deps[i] == [] then 1 else RunsOfDependencies(deps, executed, i, |deps[i]|)
  {
    if deps[i] == [] {
      PathsOverRootEdge(g, i + 1);
    } else {
      PathsOverLeafEdges(deps, g, executed, i, |deps[i]|);
    }
  }

  lemma ExecutionsOverTxEdges<K>(deps: Deps<K>, g: Dag, executed: seq<seq<nat>>, v: nat)
    requires g.edges == AllEdges(deps) && EndsWith(g.edges, executed) && 0 < v <= |deps|
    ensures Executions(executed, v) == PathsByLast(g, TxEdges(deps, v - 1), ROOT, v)
  {
    ExecutionsArePaths(g, executed, v);
    CountPathsByLast(g, ROOT, v);
    PathsOverTxEdges(deps, g, v, g.edges, TxEdges(deps, v - 1));
  }

  lemma PathsOverRootEdge(g: Dag, v: nat)
    ensures PathsByLast(g, [Edge(v, ROOT)], ROOT, v) == 1
  {
    NoEdgeNoPath(g, [], ROOT, v);
    OneLastEdge(g, [], Edge(v, ROOT), ROOT);
    assert [] + [Edge(v, ROOT)] == [Edge(v, ROOT)];
    RootHasNoPath(g);
  }

  lemma EveryTxIsExecuted<K>(deps: Deps<K>, executed: seq<seq<nat>>, i: nat)
    requires EndsWith(AllEdges(deps), executed) && i < |deps|
    ensures Runs(executed, i + 1) && Executions(executed, i + 1) >= 1
  {
    var g := RankOf(deps, executed);
    EveryTxRuns(deps, g, executed, i);
  }

  /** What a leaf depends on is the root or an earlier transaction. */
  lemma LeafDependsOnEarlier<K>(deps: Deps<K>, executed: seq<seq<nat>>, i: nat, j: nat)
    requires EndsWith(AllEdges(deps), executed) && i < |deps| && j < |deps[i]|
    ensures Dependency(deps, i, j) <= i
  {
    BuiltWalkHaltsExactly(deps);
    LeafEdgeIsThere(deps, i, j);
    EdgeGoesBack(deps, Edge(i + 1, Dependency(deps, i, j)));
  }

  lemma DependenciesRun<K>(deps: Deps<K>, executed: seq<seq<nat>>, i: nat)
    requires EndsWith(AllEdges(deps), executed) && i < |deps|
    ensures RunsOfDependencies(deps, executed, i, |deps[i]|) >= |deps[i]|
  {
    var f := LeafRuns(deps, executed, i);
    forall j | 0 <= j < |deps[i]|
      ensures f(j) >= 1
    {
      DependencyRuns(deps, executed, i, j, Dependency(deps, i, j));
    }
    SumAtLeast(f, |deps[i]|);
  }

  lemma DependencyRuns<K>(deps: Deps<K>, executed: seq<seq<nat>>, i: nat, j: nat, d: nat)
    requires EndsWith(AllEdges(deps), executed) && i < |deps| && j < |deps[i]| && d == Dependency(deps, i, j)
    ensures RunsOf(executed, d) >= 1
  {
    LeafDependsOnEarlier(deps, executed, i, j);
    EarlierRuns(deps, executed, d);
  }

  lemma EarlierRuns<K>(deps: Deps<K>, executed: seq<seq<nat>>, d: nat)
    requires EndsWith(AllEdges(deps), executed) && d <= |deps|
    ensures RunsOf(executed, d) >= 1
  {
    if d != ROOT {
      EveryTxIsExecuted(deps, executed, d - 1);
    }
  }

  /** A transaction is executed at least once for each leaf it declares. */
  lemma OneRunPerLeaf<K>(deps: Deps<K>, executed: seq<seq<nat>>, i: nat)
    requires EndsWith(AllEdges(deps), executed) && i < |deps|
    ensures Executions(executed, i + 1) >= |deps[i]|
  {
    ExecutionsAddUp(deps, executed, i);
    if deps[i] != [] {
      DependenciesRun(deps, executed, i);
    }
  }

  ghost predicate AtMostOneLeaf<K>(deps: Deps<K>) {
    forall i :: 0 <= i < |deps| ==> |deps[i]| <= 1
  }

  lemma OneLeafSum<K>(deps: Deps<K>, executed: seq<seq<nat>>, i: nat)
    requires i < |deps| && |deps[i]| == 1
    ensures RunsOfDependencies(deps, executed, i, 1) == RunsOf(executed, Dependency(deps, i, 0))
  {
    var f := LeafRuns(deps, executed, i);
    assert Sum(f, 0) == 0;
    assert f(0) == RunsOf(executed, Dependency(deps, i, 0));
  }

  lemma {:induction false} OneLeafRunsOnce<K>(deps: Deps<K>, executed: seq<seq<nat>>, i: nat)
    requires AtMostOneLeaf(deps) && EndsWith(AllEdges(deps), executed) && i < |deps|
    ensures Executions(executed, i + 1) == 1
  {
    if deps[i] == [] {
      ExecutionsAddUp(deps, executed, i);
    } else {
      var d := OneLeafFollows(deps, executed, i);
      if d != ROOT {
        OneLeafRunsOnce(deps, executed, d - 1);
      }
    }
  }

  /** With one leaf a transaction is executed as often as the earlier one it depends on. */
  lemma OneLeafFollows<K>(deps: Deps<K>, executed: seq<seq<nat>>, i: nat) returns (d: nat)
    requires EndsWith(AllEdges(deps), executed) && i < |deps| && |deps[i]| == 1
    ensures d <= i && Executions(executed, i + 1) == RunsOf(executed, d)
  {
    d := Dependency(deps, i, 0);
    LeafDependsOnEarlier(deps, executed, i, 0);
    ExecutionsAddUp(deps, executed, i);
    OneLeafSum(deps, executed, i);
  }

  /** Every transaction is executed exactly once if and only if each declares at most one leaf. */
  lemma RunsExactlyOnce<K>(deps: Deps<K>, executed: seq<seq<nat>>)
    requires EndsWith(AllEdges(deps), executed)
    ensures AtMostOneLeaf(deps) <==> forall v :: 0 < v <= |deps| ==> Executions(executed, v) == 1
  {
    if AtMostOneLeaf(deps) {
      forall v | 0 < v <= |deps|
        ensures Executions(executed, v) == 1
      {
        OneLeafRunsOnce(deps, executed, v - 1);
      }
    } else {
      var i: nat :| i < |deps| && |deps[i]| > 1;
      OneRunPerLeaf(deps, executed, i);
      assert Executions(executed, i + 1) != 1;
    }
  }

  /** Only transactions of the window are executed. */
  lemma OnlyTransactionsRun<K>(deps: Deps<K>, executed: seq<seq<nat>>, v: nat)
    requires EndsWith(AllEdges(deps), executed) && v in Flat(executed)
    ensures 0 < v <= |deps|
  {
    var g := RankOf(deps, executed);
    ExecutionsArePaths(g, executed, v);
    PathsListsEachPathOnce(g, ROOT, v);
    var p := Paths(g, ROOT, v)[0];
    PathIsChained(g.edges, ROOT, v, p);
    EdgeGoesBack(deps, g.edges[p[|p| - 1]]);
  }

  /** A transaction with two leaves that two earlier ones declare is executed at least twice. */
  lemma TwoLeavesRunTwice<K>(a: K, b: K, executed: seq<seq<nat>>)
    requires a != b && EndsWith(AllEdges([[a], [b], [a, b]]), executed)
    ensures Executions(executed, 3) >= 2
  {
    OneRunPerLeaf([[a], [b], [a, b]], executed, 2);
  }

  /** So is a transaction with two leaves that no earlier one declares. */
  lemma TwoNewLeavesRunTwice<K>(a: K, b: K, executed: seq<seq<nat>>)
    requires a != b && EndsWith(AllEdges([[a, b]]), executed)
    ensures Executions(executed, 1) >= 2
  {
    OneRunPerLeaf([[a, b]], executed, 0);
  }
}
