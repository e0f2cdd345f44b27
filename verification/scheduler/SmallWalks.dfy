/** Walks on small graphs, edge by edge and iteration by iteration: the inputs on which properties fail. */
module SmallWalks {
  import opened Graphs
  import opened Walks
  import opened Construction

  lemma ChildrenOfTwo(a: Edge, b: Edge, x: nat)
    ensures Children([a, b], x) == (if a.to == x then [a.from] else []) + (if b.to == x then [b.from] else [])
  {
    assert [a, b][..1] == [a] && [a][..0] == [];
    assert Children([a], x) == if a.to == x then [a.from] else [];
  }

  lemma SmallBatch(batch: seq<nat>)
    requires 0 < |batch| < 100
    ensures SubBatches(batch) == [batch]
  {
    assert FirstBatches(batch, 0) == [];
    assert FirstBatches(batch, 1) == [SubBatch(batch, 0)] && SubBatch(batch, 0) == batch;
  }

  lemma OneVisit(edges: seq<Edge>, x: nat, rest: seq<nat>, children: seq<nat>, executed: seq<seq<nat>>, w: Walk, w': Walk)
    requires Children(edges, x) == children && |children| < 100 && w == Walk([x] + rest, executed)
    requires w' == Walk(rest + children, if children == [] then executed else executed + [children])
    ensures Visit(edges, w) == w'
  {
    assert ([x] + rest)[1..] == rest;
    if children == [] {
      assert executed + [] == executed;
    } else {
      SmallBatch(children);
    }
  }

  lemma ThreeVisits(edges: seq<Edge>, w1: Walk, w2: Walk, w3: Walk)
    requires w1 == Visit(edges, START) && w1.toVisit != []
    requires w2 == Visit(edges, w1) && w2.toVisit != []
    requires w3 == Visit(edges, w2)
    ensures Iterate(edges, START, 3) == w3
  {
    assert Iterate(edges, w3, 0) == w3;
    assert Iterate(edges, w2, 1) == w3;
    assert Iterate(edges, w1, 2) == w3;
  }

  lemma WalkOfTwo(root: nat, first: nat, second: nat)
    requires root == ROOT && first == 1 && second == 2
    ensures EndsWith([Edge(first, root), Edge(second, first)], [[first], [second]])
  {
    var a, b := Edge(first, root), Edge(second, first);
    var edges := [a, b];
    ChildrenOfTwo(a, b, root);
    ChildrenOfTwo(a, b, first);
    ChildrenOfTwo(a, b, second);
    var w1, w2, w3 := Walk([first], [[first]]), Walk([second], [[first], [second]]), Walk([], [[first], [second]]);
    OneVisit(edges, root, [], [first], [], START, w1);
    OneVisit(edges, first, [], [second], [[first]], w1, w2);
    OneVisit(edges, second, [], [], [[first], [second]], w2, w3);
    ThreeVisits(edges, w1, w2, w3);
  }

  lemma EdgesByLeaf<K>(deps: Deps<K>)
    requires |deps| == 2 && |deps[0]| == 1 && deps[0] == deps[1]
    ensures AllEdges(deps) == [Edge(1, ROOT), Edge(2, 1)]
  {
    OneLeafEdges(deps, 0);
    OneLeafEdges(deps, 1);
    assert TxEdges(deps, 0) == [Edge(1, ROOT)] && TxEdges(deps, 1) == [Edge(2, 1)];
    assert EdgesUpTo(deps, 0) == [];
    assert EdgesUpTo(deps, 1) == [] + [Edge(1, ROOT)];
  }

  // ---------- A transaction that first runs too early ----------

  lemma ChildrenOfThree(a: Edge, b: Edge, c: Edge, edges: seq<Edge>, x: nat)
    requires edges == [a, b] + [c]
    ensures Children(edges, x) == (if a.to == x then [a.from] else []) + (if b.to == x then [b.from] else [])
                                  + if c.to == x then [c.from] else []
  {
    ChildrenOfTwo(a, b, x);
    OneEdgeMore([a, b], c, x);
  }

  lemma FourVisits(edges: seq<Edge>, w1: Walk, w2: Walk, w3: Walk, w4: Walk)
    requires w1 == Visit(edges, START) && w1.toVisit != []
    requires w2 == Visit(edges, w1) && w2.toVisit != []
    requires w3 == Visit(edges, w2) && w3.toVisit != []
    requires w4 == Visit(edges, w3)
    ensures Iterate(edges, START, 4) == w4
  {
    ThreeVisits(edges, w1, w2, w3);
    OneMoreIteration(edges, START, 3);
  }

  lemma WalkOfThree(root: nat, first: nat, second: nat, edges: seq<Edge>)
    requires root == ROOT && first == 1 && second == 2
    requires edges == [Edge(first, root), Edge(second, first)] + [Edge(second, root)]
    ensures EndsWith(edges, [[first, second], [second]])
  {
    var a, b, c := Edge(first, root), Edge(second, first), Edge(second, root);
    ChildrenOfThree(a, b, c, edges, root);
    ChildrenOfThree(a, b, c, edges, first);
    ChildrenOfThree(a, b, c, edges, second);
    var log := [[first, second], [second]];
    var w1, w2 := Walk([first, second], [[first, second]]), Walk([second, second], log);
    var w3, w4 := Walk([second], log), Walk([], log);
    OneVisit(edges, root, [], [first, second], [], START, w1);
    OneVisit(edges, first, [second], [second], [[first, second]], w1, w2);
    OneVisit(edges, second, [second], [], log, w2, w3);
    OneVisit(edges, second, [], [], log, w3, w4);
    FourVisits(edges, w1, w2, w3, w4);
  }

  lemma EdgesOfEarlyRun<K>(a: K, b: K, deps: Deps<K>)
    requires a != b && deps == [[a], [a, b]]
    ensures AllEdges(deps) == [Edge(1, ROOT), Edge(2, 1)] + [Edge(2, ROOT)]
  {
    OneLeafEdges(deps, 0);
    OneMoreTx(deps, 0);
    OneMoreTx(deps, 1);
    LeafEdgeAt(deps, 1, 2, 0);
    LeafEdgeAt(deps, 1, 2, 1);
    assert deps[1][..1] == [a] && Writer(deps, 0, a) == ROOT && Writer(deps, 0, b) == ROOT;
    assert TxEdges(deps, 1) == [Edge(2, 1), Edge(2, ROOT)];
    assert EdgesUpTo(deps, 0) == [];
  }

  /**
   Only last executions are in order: a transaction that declares the leaf of an earlier one and a new leaf
   first runs at the same time as the one it depends on, and then once more after it.
   */
  lemma FirstRunTooEarly<K>(a: K, b: K)
    requires a != b
    ensures EndsWith(AllEdges([[a], [a, b]]), [[1, 2], [2]])
  {
    EdgesOfEarlyRun(a, b, [[a], [a, b]]);
    WalkOfThree(ROOT, 1, 2, AllEdges([[a], [a, b]]));
  }
}
