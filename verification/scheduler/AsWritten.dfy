/**
 The schedule as the source computes it: `lastToModifyLeaf` is keyed by the address of the loop variable. It
 runs transactions in groups of 100, whatever leaves they declare.
 */
module AsWritten {
  import opened Graphs
  import opened Walks
  import opened Construction
  import opened Executer
  import opened Serial
  import opened SmallWalks

  /** `&leaf` is one address for all leaves of a transaction, and a new one for each transaction. */
  function AddressKeys<K>(leaves: Deps<K>): Deps<nat> {
    seq(|leaves|, i requires 0 <= i < |leaves| => seq(|leaves[i]|, j => i))
  }

  /** As written, the walk ends if and only if every transaction declares at most one leaf. */
  lemma AsWrittenHaltsExactly<K>(leaves: Deps<K>)
    ensures Halts(AllEdges(AddressKeys(leaves))) <==> AtMostOneLeaf(leaves)
  {
    var keys := AddressKeys(leaves);
    BuiltWalkHaltsExactly(keys);
    forall i | 0 <= i < |leaves|
      ensures NoDuplicates(keys[i]) <==> |leaves[i]| <= 1
    {
      assert |keys[i]| == |leaves[i]|;
      if |leaves[i]| > 1 {
        assert keys[i][0] == keys[i][1];
      }
    }
  }

  lemma AsWrittenEdge<K>(leaves: Deps<K>, e: Edge)
    requires e in AllEdges(AddressKeys(leaves))
    ensures e.to == ROOT || e.to == e.from
  {
    var keys := AddressKeys(leaves);
    var i, j := EdgeComesFrom(keys, e);
    if keys[i] != [] && e.to != ROOT && e.to != e.from {
      WriterDeclares(keys, i, keys[i][j]);
    }
  }

  lemma {:induction false} StarPath(edges: seq<Edge>, x: nat, v: nat, p: seq<nat>)
    requires forall e :: e in edges ==> e.to == ROOT || e.to == e.from
    requires IsPath(edges, x, v, p)
    ensures x == ROOT || x == v
    decreases |p|
  {
    assert edges[p[0]] in edges;
    if |p| > 1 {
      StarPath(edges, edges[p[0]].from, v, p[1..]);
    }
  }

  lemma StarDependency(edges: seq<Edge>, v: nat, x: nat)
    requires forall e :: e in edges ==> e.to == ROOT || e.to == e.from
    ensures DependsOn(edges, v, x) ==> x == ROOT || x == v
  {
    if DependsOn(edges, v, x) {
      var p :| IsPath(edges, x, v, p);
      StarPath(edges, x, v, p);
    }
  }

  /** As written, no transaction depends on another one, whatever leaves they share. */
  lemma AsWrittenOrdersNothing<K>(leaves: Deps<K>, i: nat, j: nat)
    requires i < |leaves| && j < |leaves| && i != j
    ensures !DependsOn(AllEdges(AddressKeys(leaves)), j + 1, i + 1)
  {
    var edges := AllEdges(AddressKeys(leaves));
    forall e | e in edges
      ensures e.to == ROOT || e.to == e.from
    {
      AsWrittenEdge(leaves, e);
    }
    StarDependency(edges, j + 1, i + 1);
  }

  // ---------- The schedule ----------

  /** The walk on a graph whose edges all lead to the root runs the children of the root. */
  lemma StarWalk(edges: seq<Edge>)
    requires forall e :: e in edges ==> e.to == ROOT != e.from
    ensures EndsWith(edges, SubBatches(Children(edges, ROOT)))
  {
    var children := Children(edges, ROOT);
    forall k | 0 <= k < |children|
      ensures Children(edges, children[k]) == []
    {
      ChildHasEdge(edges, ROOT, children[k]);
      LeafHasNoChildren(edges, children[k]);
    }
    var w := Walk(children, SubBatches(children));
    assert Visit(edges, START) == w;
    PopLeaves(edges, w, |children|);
    assert Iterate(edges, START, |children| + 1) == Iterate(edges, w, |children|);
  }

  lemma LeafHasNoChildren(edges: seq<Edge>, x: nat)
    requires forall e :: e in edges ==> e.to == ROOT != e.from
    requires x != ROOT
    ensures Children(edges, x) == []
  {
    if Children(edges, x) != [] {
      ChildHasEdge(edges, x, Children(edges, x)[0]);
    }
  }

  lemma {:induction false} PopLeaves(edges: seq<Edge>, w: Walk, n: nat)
    requires n == |w.toVisit|
    requires forall k :: 0 <= k < |w.toVisit| ==> Children(edges, w.toVisit[k]) == []
    ensures Iterate(edges, w, n) == Walk([], w.executed)
    decreases n
  {
    if n > 0 {
      var w' := Walk(w.toVisit[1..], w.executed);
      assert Children(edges, w.toVisit[0]) == [];
      assert Visit(edges, w) == w';
      PopLeaves(edges, w', n - 1);
    }
  }

  ghost predicate StartsAtRoot<K>(keys: Deps<K>, i: nat)
    requires i < |keys|
  {
    TxEdges(keys, i) == [Edge(i + 1, ROOT)]
  }

  ghost predicate StartsAt(group: nat -> seq<Edge>, i: nat, root: nat) {
    group(i) == [Edge(i + 1, root)]
  }

  /** Groups of one edge to the root make all transactions its children. */
  lemma {:induction false} AllStartAtRoot(group: nat -> seq<Edge>, n: nat, root: nat)
    requires forall i :: 0 <= i < n ==> StartsAt(group, i, root)
    ensures Children(Concat(group, n), root) == TxNodes(n)
  {
    if n > 0 {
      AllStartAtRoot(group, n - 1, root);
      assert StartsAt(group, n - 1, root);
      OneEdgeMore(Concat(group, n - 1), Edge(n, root), root);
    }
  }

  lemma GroupStarts<K>(keys: Deps<K>, group: nat -> seq<Edge>, i: nat, root: nat)
    requires i < |keys| && group == Groups(keys) && root == ROOT && StartsAtRoot(keys, i)
    ensures StartsAt(group, i, root)
  {
    GroupIs(keys, i, group);
  }

  /** As written, and with at most one leaf each, the children of the root are all transactions. */
  lemma ChildrenOfRoot<K>(keys: Deps<K>, group: nat -> seq<Edge>, root: nat)
    requires group == Groups(keys) && root == ROOT && forall i :: 0 <= i < |keys| ==> StartsAtRoot(keys, i)
    ensures Children(AllEdges(keys), root) == TxNodes(|keys|)
  {
    GroupsMakeAll(keys, group);
    forall i | 0 <= i < |keys|
      ensures StartsAt(group, i, root)
    {
      GroupStarts(keys, group, i, root);
    }
    AllStartAtRoot(group, |keys|, root);
  }

  lemma OnlyRootEdges<K>(keys: Deps<K>, e: Edge)
    requires forall i :: 0 <= i < |keys| ==> StartsAtRoot(keys, i)
    requires e in AllEdges(keys)
    ensures e.to == ROOT != e.from
  {
    var i := TxOfEdge(keys, |keys|, e);
    assert StartsAtRoot(keys, i);
  }

  /** Transaction i has no other key than lo + i. */
  ghost predicate Addresses(keys: Deps<nat>, lo: nat) {
    forall i :: 0 <= i < |keys| ==> OwnKeys(keys[i], lo + i)
  }

  ghost predicate OwnKeys(keys: seq<nat>, own: nat) {
    forall j :: 0 <= j < |keys| ==> keys[j] == own
  }

  lemma OwnEdge(keys: Deps<nat>, lo: nat, i: nat)
    requires i < |keys| && |keys[i]| <= 1 && Addresses(keys, lo)
    ensures StartsAtRoot(keys, i)
  {
    if keys[i] != [] {
      assert OwnKeys(keys[i], lo + i);
      OneLeafEdges(keys, i);
      OwnKey(keys, lo, i, keys[i][0], Writer(keys, i, keys[i][0]));
    }
  }

  /** No transaction before i has the key of transaction i. */
  lemma OwnKey(keys: Deps<nat>, lo: nat, i: nat, key: nat, w: nat)
    requires i < |keys| && Addresses(keys, lo) && key == lo + i && w == Writer(keys, i, key)
    ensures w == ROOT
  {
    forall j | 0 <= j < i
      ensures key !in keys[j]
    {
      assert OwnKeys(keys[j], lo + j);
    }
    NoWriter(keys, i, key);
  }

  lemma {:induction false} NoWriter(keys: Deps<nat>, n: nat, key: nat)
    requires n <= |keys| && forall j :: 0 <= j < n ==> key !in keys[j]
    ensures Writer(keys, n, key) == ROOT
  {
    if n > 0 {
      NoWriter(keys, n - 1, key);
    }
  }

  /** With addresses as keys and at most one leaf each, the transactions run in groups of 100 in order. */
  lemma AddressSchedule(keys: Deps<nat>, lo: nat)
    requires Addresses(keys, lo) && AtMostOneLeaf(keys)
    ensures EndsWith(AllEdges(keys), SubBatches(TxNodes(|keys|)))
  {
    forall i | 0 <= i < |keys|
      ensures StartsAtRoot(keys, i)
    {
      OwnEdge(keys, lo, i);
    }
    ChildrenOfRoot(keys, Groups(keys), ROOT);
    forall e | e in AllEdges(keys)
      ensures e.to == ROOT != e.from
    {
      OnlyRootEdges(keys, e);
    }
    StarWalk(AllEdges(keys));
  }

  lemma KeysAreAddresses<K>(leaves: Deps<K>, keys: Deps<nat>)
    requires keys == AddressKeys(leaves)
    ensures |keys| == |leaves| && Addresses(keys, 0)
    ensures forall i :: 0 <= i < |leaves| ==> |keys[i]| == |leaves[i]|
  {
  }

  /** As written, the transactions run in groups of 100 in sequence order. */
  lemma AsWrittenSchedule<K>(leaves: Deps<K>)
    requires AtMostOneLeaf(leaves)
    ensures EndsWith(AllEdges(AddressKeys(leaves)), SubBatches(TxNodes(|leaves|)))
  {
    KeysAreAddresses(leaves, AddressKeys(leaves));
    AddressSchedule(AddressKeys(leaves), 0);
  }

  /** Transaction i is in group i / 100 and in no other. */
  lemma GroupOf(n: nat, i: nat, p: nat)
    requires i < n && p < BatchCount(TxNodes(n))
    ensures |SubBatches(TxNodes(n))| == BatchCount(TxNodes(n))
    ensures i + 1 in SubBatches(TxNodes(n))[p] <==> p == i / 100
  {
    var batch := TxNodes(n);
    TxNodesInOrder(n);
    assert batch[0] == 1;
    BatchAt(batch, BatchCount(batch), p);
    var group := SubBatch(batch, p);
    if p == i / 100 {
      assert group[i - 100 * p] == batch[i];
    }
    if i + 1 in group {
      var k :| 0 <= k < |group| && group[k] == i + 1;
      assert group[k] == batch[100 * p + k];
    }
  }

  lemma LastGroup(n: nat, i: nat)
    requires i < n
    ensures Runs(SubBatches(TxNodes(n)), i + 1)
    ensures LastRun(SubBatches(TxNodes(n)), i + 1) == i / 100
  {
    var log := SubBatches(TxNodes(n));
    var p := i / 100;
    TxNodesInOrder(n);
    assert p < BatchCount(TxNodes(n));
    GroupOf(n, i, p);
    assert Runs(log, i + 1);
    GroupOf(n, i, LastRun(log, i + 1));
  }

  lemma EndsOnlyWithOneLeaf<K>(leaves: Deps<K>, executed: seq<seq<nat>>)
    requires EndsWith(AllEdges(AddressKeys(leaves)), executed)
    ensures AtMostOneLeaf(leaves)
  {
    AsWrittenHaltsExactly(leaves);
  }

  /** What the walk as written can end with. */
  lemma OnlySchedule<K>(leaves: Deps<K>, executed: seq<seq<nat>>)
    requires EndsWith(AllEdges(AddressKeys(leaves)), executed)
    ensures AtMostOneLeaf(leaves) && executed == SubBatches(TxNodes(|leaves|))
  {
    EndsOnlyWithOneLeaf(leaves, executed);
    AsWrittenSchedule(leaves);
    EndsOnce(AllEdges(AddressKeys(leaves)), executed, SubBatches(TxNodes(|leaves|)));
  }

  /**
   As written, an earlier transaction ends before a later one if and only if they are in different groups of
   100, whatever leaves they declare.
   */
  lemma AsWrittenOrdersExactly<K>(leaves: Deps<K>, executed: seq<seq<nat>>, i: nat, j: nat)
    requires EndsWith(AllEdges(AddressKeys(leaves)), executed) && i < j < |leaves|
    ensures EndsBefore(executed, i + 1, j + 1) <==> i / 100 < j / 100
  {
    OnlySchedule(leaves, executed);
    LastGroup(|leaves|, i);
    LastGroup(|leaves|, j);
  }

  lemma AsWrittenRunsEachOnce<K>(leaves: Deps<K>, executed: seq<seq<nat>>)
    requires EndsWith(AllEdges(AddressKeys(leaves)), executed)
    ensures EachOnce(leaves, executed)
  {
    OnlySchedule(leaves, executed);
    GroupsRunEachOnce(leaves, executed);
  }

  lemma GroupsRunEachOnce<K>(leaves: Deps<K>, executed: seq<seq<nat>>)
    requires executed == SubBatches(TxNodes(|leaves|))
    ensures EachOnce(leaves, executed)
  {
    SubBatchesPartition(TxNodes(|leaves|));
    forall v | 0 < v <= |leaves|
      ensures Executions(executed, v) == 1
    {
      EachNodeOnce(|leaves|, v);
    }
    forall v | v in Flat(executed)
      ensures 0 < v <= |leaves|
    {
      EachNodeOnce(|leaves|, v);
      assert multiset(TxNodes(|leaves|))[v] > 0;
    }
  }

  /** No two transactions of one group of 100 declare the same leaf. */
  ghost predicate GroupsAreFreeOfConflicts<K>(leaves: Deps<K>) {
    forall i: nat, j: nat :: i < j && Conflict(leaves, i, j) ==> i / 100 < j / 100
  }

  /**
   As written, the schedule ends in the serial state for all effects and all orders within sub-batches if
   and only if no two transactions of one group of 100 declare the same leaf.
   */
  lemma AsWrittenSerialExactly<K(!new)>(leaves: Deps<K>, executed: seq<seq<nat>>)
    requires EndsWith(AllEdges(AddressKeys(leaves)), executed)
    ensures AlwaysSerial(leaves, executed) <==> GroupsAreFreeOfConflicts(leaves)
  {
    OnlySchedule(leaves, executed);
    AsWrittenRunsEachOnce(leaves, executed);
    SerialExactly(leaves, executed);
    forall i: nat, j: nat | i < j && Conflict(leaves, i, j)
      ensures EndsBefore(executed, i + 1, j + 1) <==> i / 100 < j / 100
    {
      AsWrittenOrdersExactly(leaves, executed, i, j);
    }
  }

  // ---------- The smallest race ----------

  /** Two transactions on one leaf: as written they run at the same time, by leaf one after the other. */
  lemma AsWrittenRacesOnOneLeaf<K>(leaf: K)
    ensures EndsWith(AllEdges(AddressKeys([[leaf], [leaf]])), [[1, 2]])
    ensures EndsWith(AllEdges([[leaf], [leaf]]), [[1], [2]])
  {
    AsWrittenSchedule([[leaf], [leaf]]);
    TwoInOneGroup();
    EdgesByLeaf([[leaf], [leaf]]);
    WalkOfTwo(ROOT, 1, 2);
  }

  lemma TwoInOneGroup()
    ensures SubBatches(TxNodes(2)) == [[1, 2]]
  {
    assert TxNodes(0) == [] && TxNodes(1) == [1] && TxNodes(2) == [1, 2];
    SmallBatch([1, 2]);
  }
}
