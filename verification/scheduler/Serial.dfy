/**
 When every transaction declares at most one leaf and touches only that leaf, the parallel schedule of a
 window ends in the same state as running its transactions in sequence order. More generally, a schedule that
 runs each transaction once does so, for all effects, if and only if it runs conflicting ones in order.
 */
module Serial {
  import opened Common
  import opened Graphs
  import opened Walks
  import opened Construction

  ghost predicate Conflict<K>(deps: Deps<K>, i: int, j: int) {
    0 <= i < |deps| && 0 <= j < |deps| && deps[i] == deps[j] && deps[i] != []
  }

  /** Every transaction is executed exactly once, and nothing else is. */
  ghost predicate EachOnce<K>(deps: Deps<K>, log: seq<seq<nat>>) {
    && (forall v :: 0 < v <= |deps| ==> Executions(log, v) == 1)
    && (forall v :: v in Flat(log) ==> 0 < v <= |deps|)
  }

  /** Of two transactions that share a leaf, the earlier one has its last execution in an earlier sub-batch. */
  ghost predicate ConflictsInOrder<K>(deps: Deps<K>, log: seq<seq<nat>>) {
    forall i: nat, j: nat :: i < j && Conflict(deps, i, j) ==> EndsBefore(log, i + 1, j + 1)
  }

  // ---------- Conflicts are never in one sub-batch ----------

  lemma {:induction false} RunsInFlat(log: seq<seq<nat>>, v: nat, p: nat)
    requires p < |log| && v in log[p]
    ensures Executions(log, v) > 0
  {
    InFlat(log, v);
  }

  lemma TwoBatchesTwoRuns(log: seq<seq<nat>>, v: nat, p: nat, q: nat)
    requires p < q < |log| && v in log[p] && v in log[q]
    ensures Executions(log, v) >= 2
  {
    FlatAppend(log[..q], log[q..]);
    assert log[..q] + log[q..] == log;
    assert log[..q][p] == log[p] && log[q..][0] == log[q];
    RunsInFlat(log[..q], v, p);
    RunsInFlat(log[q..], v, 0);
  }

  ghost predicate OnlyIn(log: seq<seq<nat>>, v: nat, p: nat) {
    p < |log| && v in log[p] && forall q :: 0 <= q < |log| && v in log[q] ==> q == p
  }

  lemma ExecutedRuns(log: seq<seq<nat>>, v: nat)
    requires Executions(log, v) > 0
    ensures Runs(log, v)
  {
    assert v in multiset(Flat(log));
    InFlat(log, v);
  }

  lemma BatchOf<K>(deps: Deps<K>, log: seq<seq<nat>>, v: nat) returns (p: nat)
    requires EachOnce(deps, log) && 0 < v <= |deps|
    ensures Runs(log, v) && p == LastRun(log, v) && OnlyIn(log, v, p)
  {
    ExecutedRuns(log, v);
    p := LastRun(log, v);
    forall q | 0 <= q < |log| && v in log[q]
      ensures q == p
    {
      if q < p {
        TwoBatchesTwoRuns(log, v, q, p);
      }
    }
  }

  /** The walk on a graph with at most one leaf for each transaction. */
  lemma WalkIsInOrder<K>(deps: Deps<K>, executed: seq<seq<nat>>)
    requires AtMostOneLeaf(deps) && EndsWith(AllEdges(deps), executed)
    ensures EachOnce(deps, executed) && ConflictsInOrder(deps, executed)
  {
    RunsExactlyOnce(deps, executed);
    forall v | v in Flat(executed)
      ensures 0 < v <= |deps|
    {
      OnlyTransactionsRun(deps, executed, v);
    }
    forall i: nat, j: nat | i < j && Conflict(deps, i, j)
      ensures EndsBefore(executed, i + 1, j + 1)
    {
      ConflictsEndInOrder(deps, executed, i, j, deps[i][0]);
    }
  }

  /** Of two transactions that share a leaf, the earlier one runs in an earlier sub-batch. */
  lemma ConflictsRunInOrder<K>(deps: Deps<K>, executed: seq<seq<nat>>, i: nat, j: nat) returns (p: nat, q: nat)
    requires AtMostOneLeaf(deps) && EndsWith(AllEdges(deps), executed)
    requires i < j && Conflict(deps, i, j)
    ensures OnlyIn(executed, i + 1, p) && OnlyIn(executed, j + 1, q) && p < q
  {
    WalkIsInOrder(deps, executed);
    p := BatchOf(deps, executed, i + 1);
    q := BatchOf(deps, executed, j + 1);
  }

  // ---------- Orders a parallel machine can produce ----------

  /** Sub-batches one after the other, each in some order. */
  ghost predicate Linearizes(order: seq<nat>, log: seq<seq<nat>>)
    decreases |log|
  {
    if log == [] then order == []
    else
      var last := log[|log| - 1];
      && |last| <= |order|
      && multiset(order[|order| - |last|..]) == multiset(last)
      && Linearizes(order[..|order| - |last|], log[..|log| - 1])
  }

  lemma {:induction false} LinearizationIsPermutation(order: seq<nat>, log: seq<seq<nat>>)
    requires Linearizes(order, log)
    ensures multiset(order) == multiset(Flat(log))
    decreases |log|
  {
    if log != [] {
      var n := |order| - |log[|log| - 1]|;
      LinearizationIsPermutation(order[..n], log[..|log| - 1]);
      assert order == order[..n] + order[n..];
    }
  }

  lemma SameElements(a: seq<nat>, b: seq<nat>, v: nat)
    requires multiset(a) == multiset(b)
    ensures v in a <==> v in b
  {
    assert v in a <==> v in multiset(a);
  }

  lemma NotInSuffix(order: seq<nat>, n: nat, u: nat)
    requires n <= |order| && u !in order[n..]
    ensures forall a :: n <= a < |order| ==> order[a] != u
  {
    assert forall a :: n <= a < |order| ==> order[a] == order[n..][a - n];
  }

  lemma {:induction false} EarlierBatchComesFirst(order: seq<nat>, log: seq<seq<nat>>, u: nat, p: nat, v: nat, q: nat, a: nat, b: nat)
    requires Linearizes(order, log) && OnlyIn(log, u, p) && OnlyIn(log, v, q) && p < q
    requires a < |order| && b < |order| && order[a] == u && order[b] == v
    ensures a < b
    decreases |log|
  {
    var last, before := log[|log| - 1], log[..|log| - 1];
    var n := |order| - |last|;
    SameElements(order[n..], last, u);
    NotInSuffix(order, n, u);
    if b < n {
      LinearizationIsPermutation(order[..n], before);
      assert order[..n][b] == v && order[..n][a] == u;
      SameElements(order[..n], Flat(before), v);
      InFlat(before, v);
      var q' :| 0 <= q' < |before| && v in before[q'];
      assert v in log[q'];
      EarlierBatchComesFirst(order[..n], before, u, p, v, q, a, b);
    }
  }

  // ---------- Effects ----------

  function Lookup<K, V>(st: map<K, V>, key: K): Option<V> {
    if key in st then Some(st[key]) else None
  }

  /** A transaction as a function on its declared leaf: `effect(i, x)` is the new value. */
  function RunTx<K, V>(deps: Deps<K>, effect: (nat, Option<V>) -> V, st: map<K, V>, v: nat): map<K, V> {
    if v == ROOT || v > |deps| || deps[v - 1] == [] then st
    else st[deps[v - 1][0] := effect(v - 1, Lookup(st, deps[v - 1][0]))]
  }

  function RunAll<K, V>(deps: Deps<K>, effect: (nat, Option<V>) -> V, order: seq<nat>, st: map<K, V>): map<K, V> {
    if order == [] then st
    else RunTx(deps, effect, RunAll(deps, effect, order[..|order| - 1], st), order[|order| - 1])
  }

  predicate Touches<K(==)>(deps: Deps<K>, key: K, v: nat) {
    0 < v <= |deps| && deps[v - 1] != [] && deps[v - 1][0] == key
  }

  function OnLeaf<K(==)>(deps: Deps<K>, key: K, order: seq<nat>): seq<nat> {
    if order == [] then []
    else
      var before := OnLeaf(deps, key, order[..|order| - 1]);
      if Touches(deps, key, order[|order| - 1]) then before + [order[|order| - 1]] else before
  }

  function Fold<V>(effect: (nat, Option<V>) -> V, vs: seq<nat>, x: Option<V>): Option<V> {
    if vs == [] then x
    else
      var v := vs[|vs| - 1];
      Some(effect(if v == 0 then 0 else v - 1, Fold(effect, vs[..|vs| - 1], x)))
  }

  /** The value of a leaf depends only on the transactions on that leaf, in their order. */
  lemma {:induction false} LeafValue<K, V>(deps: Deps<K>, effect: (nat, Option<V>) -> V, order: seq<nat>, st: map<K, V>, key: K)
    ensures Lookup(RunAll(deps, effect, order, st), key) == Fold(effect, OnLeaf(deps, key, order), Lookup(st, key))
  {
    if order != [] {
      LeafValue(deps, effect, order[..|order| - 1], st, key);
      var before := OnLeaf(deps, key, order[..|order| - 1]);
      var v := order[|order| - 1];
      if Touches(deps, key, v) {
        assert (before + [v])[..|before|] == before;
      }
    }
  }

  ghost predicate Increasing(s: seq<nat>) {
    forall a, b :: 0 <= a < b < |s| ==> s[a] < s[b]
  }

  lemma {:induction false} OnLeafMembers<K>(deps: Deps<K>, key: K, order: seq<nat>, v: nat)
    ensures v in OnLeaf(deps, key, order) <==> v in order && Touches(deps, key, v)
  {
    if order != [] {
      OnLeafMembers(deps, key, order[..|order| - 1], v);
      assert order == order[..|order| - 1] + [order[|order| - 1]];
    }
  }

  lemma {:induction false} OnLeafIncreases<K>(deps: Deps<K>, key: K, order: seq<nat>)
    requires forall a, b :: 0 <= a < b < |order| && Touches(deps, key, order[a]) && Touches(deps, key, order[b]) ==> order[a] < order[b]
    ensures Increasing(OnLeaf(deps, key, order))
  {
    if order != [] {
      var prefix := order[..|order| - 1];
      OnLeafIncreases(deps, key, prefix);
      var before := OnLeaf(deps, key, prefix);
      forall k | 0 <= k < |before| && Touches(deps, key, order[|order| - 1])
        ensures before[k] < order[|order| - 1]
      {
        OnLeafMembers(deps, key, prefix, before[k]);
        var a :| 0 <= a < |prefix| && prefix[a] == before[k];
        assert order[a] == before[k];
      }
    }
  }

  ghost predicate SameMembers(s: seq<nat>, t: seq<nat>) {
    forall v :: v in s <==> v in t
  }

  lemma LastIsGreatest(s: seq<nat>, v: nat)
    requires Increasing(s) && v in s
    ensures v <= s[|s| - 1] && (v in s[..|s| - 1] <==> v < s[|s| - 1])
  {
    var k :| 0 <= k < |s| && s[k] == v;
    if k < |s| - 1 {
      assert s[..|s| - 1][k] == v;
    }
  }

  lemma ButLast(s: seq<nat>, v: nat)
    requires Increasing(s) && s != []
    ensures v in s[..|s| - 1] <==> v in s && v < s[|s| - 1]
  {
    if v in s {
      LastIsGreatest(s, v);
    }
  }

  lemma {:induction false} IncreasingIsUnique(s: seq<nat>, t: seq<nat>)
    requires Increasing(s) && Increasing(t) && SameMembers(s, t)
    ensures s == t
    decreases |s|
  {
    assert s != [] ==> s[0] in s;
    assert t != [] ==> t[0] in t;
    if s != [] {
      var x, y := s[|s| - 1], t[|t| - 1];
      LastIsGreatest(s, y);
      LastIsGreatest(t, x);
      var s', t' := s[..|s| - 1], t[..|t| - 1];
      forall v
        ensures v in s' <==> v in t'
      {
        ButLast(s, v);
        ButLast(t, v);
      }
      IncreasingIsUnique(s', t');
      assert s == s' + [x] && t == t' + [y];
    }
  }

  lemma TwoPlaces(order: seq<nat>, a: nat, b: nat)
    requires a < b < |order| && order[a] == order[b]
    ensures multiset(order)[order[a]] >= 2
  {
    var front, back := order[..b], order[b..];
    assert order == front + back;
    assert front[a] in front && back[0] in back;
    assert order[a] in multiset(front) && order[a] in multiset(back);
    assert multiset(order) == multiset(front) + multiset(back);
  }

  lemma ConflictComesFirst<K>(deps: Deps<K>, log: seq<seq<nat>>, order: seq<nat>, i: nat, j: nat, a: nat, b: nat)
    requires EachOnce(deps, log) && ConflictsInOrder(deps, log) && Linearizes(order, log)
    requires i < j && Conflict(deps, i, j)
    requires a < |order| && b < |order| && order[a] == i + 1 && order[b] == j + 1
    ensures a < b
  {
    var p := BatchOf(deps, log, i + 1);
    var q := BatchOf(deps, log, j + 1);
    EarlierBatchComesFirst(order, log, i + 1, p, j + 1, q, a, b);
  }

  lemma ScheduleOrdersTxs<K>(deps: Deps<K>, log: seq<seq<nat>>, order: seq<nat>, i: nat, j: nat, a: nat, b: nat)
    requires EachOnce(deps, log) && ConflictsInOrder(deps, log) && Linearizes(order, log)
    requires Conflict(deps, i, j)
    requires a < b < |order| && order[a] == i + 1 && order[b] == j + 1
    ensures i < j
  {
    LinearizationIsPermutation(order, log);
    assert Executions(log, i + 1) == 1;
    if i == j {
      TwoPlaces(order, a, b);
    } else if j < i {
      ConflictComesFirst(deps, log, order, j, i, b, a);
    }
  }

  lemma ScheduleOrdersLeaf<K>(deps: Deps<K>, log: seq<seq<nat>>, order: seq<nat>, key: K, a: nat, b: nat)
    requires AtMostOneLeaf(deps) && EachOnce(deps, log) && ConflictsInOrder(deps, log) && Linearizes(order, log)
    requires a < b < |order| && Touches(deps, key, order[a]) && Touches(deps, key, order[b])
    ensures order[a] < order[b]
  {
    var i, j := SingleLeafConflict(deps, key, order[a], order[b]);
    ScheduleOrdersTxs(deps, log, order, i, j, a, b);
  }

  lemma SingleLeafConflict<K>(deps: Deps<K>, key: K, u: nat, v: nat) returns (i: nat, j: nat)
    requires AtMostOneLeaf(deps) && Touches(deps, key, u) && Touches(deps, key, v)
    ensures u == i + 1 && v == j + 1 && Conflict(deps, i, j)
  {
    i, j := u - 1, v - 1;
    assert deps[i] == [key] && deps[j] == [key];
  }

  lemma ScheduleRunsAll<K>(deps: Deps<K>, log: seq<seq<nat>>, order: seq<nat>, v: nat)
    requires EachOnce(deps, log) && Linearizes(order, log)
    ensures v in order <==> 0 < v <= |deps|
  {
    LinearizationIsPermutation(order, log);
    SameElements(order, Flat(log), v);
    if 0 < v <= |deps| {
      assert Executions(log, v) == 1;
      assert v in multiset(order);
    }
  }

  lemma SerialIncreasesOnLeaf<K>(deps: Deps<K>, key: K)
    ensures Increasing(OnLeaf(deps, key, TxNodes(|deps|)))
  {
    TxNodesInOrder(|deps|);
    OnLeafIncreases(deps, key, TxNodes(|deps|));
  }

  lemma ScheduleIncreasesOnLeaf<K>(deps: Deps<K>, log: seq<seq<nat>>, order: seq<nat>, key: K)
    requires AtMostOneLeaf(deps) && EachOnce(deps, log) && ConflictsInOrder(deps, log) && Linearizes(order, log)
    ensures Increasing(OnLeaf(deps, key, order))
  {
    forall a, b | 0 <= a < b < |order| && Touches(deps, key, order[a]) && Touches(deps, key, order[b])
      ensures order[a] < order[b]
    {
      ScheduleOrdersLeaf(deps, log, order, key, a, b);
    }
    OnLeafIncreases(deps, key, order);
  }

  lemma TxNodesMember(n: nat, v: nat)
    ensures v in TxNodes(n) <==> 0 < v <= n
  {
    TxNodesInOrder(n);
    if 0 < v <= n {
      assert TxNodes(n)[v - 1] == v;
    }
  }

  lemma SameOnLeaf<K>(deps: Deps<K>, log: seq<seq<nat>>, order: seq<nat>, key: K, v: nat)
    requires EachOnce(deps, log) && Linearizes(order, log)
    ensures v in OnLeaf(deps, key, order) <==> v in OnLeaf(deps, key, TxNodes(|deps|))
  {
    var serial := TxNodes(|deps|);
    OnLeafMembers(deps, key, order, v);
    OnLeafMembers(deps, key, serial, v);
    ScheduleRunsAll(deps, log, order, v);
    TxNodesMember(|deps|, v);
  }

  lemma SameOrderOnLeaf<K>(deps: Deps<K>, log: seq<seq<nat>>, order: seq<nat>, key: K)
    requires AtMostOneLeaf(deps) && EachOnce(deps, log) && ConflictsInOrder(deps, log) && Linearizes(order, log)
    ensures OnLeaf(deps, key, order) == OnLeaf(deps, key, TxNodes(|deps|))
  {
    ScheduleIncreasesOnLeaf(deps, log, order, key);
    SerialIncreasesOnLeaf(deps, key);
    forall v
      ensures v in OnLeaf(deps, key, order) <==> v in OnLeaf(deps, key, TxNodes(|deps|))
    {
      SameOnLeaf(deps, log, order, key, v);
    }
    IncreasingIsUnique(OnLeaf(deps, key, order), OnLeaf(deps, key, TxNodes(|deps|)));
  }

  /**
   A schedule that runs each transaction once, and conflicting ones in order, ends in the state that running
   them in sequence order gives, whatever order the transactions of each sub-batch take effect in.
   */
  lemma InOrderIsSerial<K, V>(deps: Deps<K>, effect: (nat, Option<V>) -> V, log: seq<seq<nat>>,
                              order: seq<nat>, st: map<K, V>)
    requires AtMostOneLeaf(deps) && EachOnce(deps, log) && ConflictsInOrder(deps, log) && Linearizes(order, log)
    ensures RunAll(deps, effect, order, st) == RunAll(deps, effect, TxNodes(|deps|), st)
  {
    var parallel, serial := RunAll(deps, effect, order, st), RunAll(deps, effect, TxNodes(|deps|), st);
    forall key
      ensures Lookup(parallel, key) == Lookup(serial, key)
    {
      SameOrderOnLeaf(deps, log, order, key);
      LeafValue(deps, effect, order, st, key);
      LeafValue(deps, effect, TxNodes(|deps|), st, key);
    }
    SameLookups(parallel, serial);
  }

  /** Serial equivalence of the walk, for any effects. */
  lemma SerialEquivalence<K, V>(deps: Deps<K>, effect: (nat, Option<V>) -> V, executed: seq<seq<nat>>,
                                order: seq<nat>, st: map<K, V>)
    requires AtMostOneLeaf(deps) && EndsWith(AllEdges(deps), executed) && Linearizes(order, executed)
    ensures RunAll(deps, effect, order, st) == RunAll(deps, effect, TxNodes(|deps|), st)
  {
    WalkIsInOrder(deps, executed);
    InOrderIsSerial(deps, effect, executed, order, st);
  }

  lemma SameLookups<K, V>(a: map<K, V>, b: map<K, V>)
    requires forall key :: Lookup(a, key) == Lookup(b, key)
    ensures a == b
  {
    forall key
      ensures key in a <==> key in b
      ensures key in a && key in b ==> a[key] == b[key]
    {
      assert Lookup(a, key) == Lookup(b, key);
    }
  }

  // ---------- Schedules that are not serial ----------

  /** Whatever order the sub-batches' transactions take effect in, the final state is the serial one. */
  ghost predicate AlwaysSerial<K(!new)>(deps: Deps<K>, log: seq<seq<nat>>) {
    forall effect: (nat, Option<seq<nat>>) -> seq<nat>, order: seq<nat>, st: map<K, seq<nat>> | Linearizes(order, log) ::
      RunAll(deps, effect, order, st) == RunAll(deps, effect, TxNodes(|deps|), st)
  }

  lemma {:induction false} FlatLinearizes(log: seq<seq<nat>>)
    ensures Linearizes(Flat(log), log)
    decreases |log|
  {
    if log != [] {
      var before, last := log[..|log| - 1], log[|log| - 1];
      FlatLinearizes(before);
      LinearizesOneMore(Flat(before), before, last, last);
      assert before + [last] == log;
    }
  }

  lemma LinearizesOneMore(order: seq<nat>, log: seq<seq<nat>>, last: seq<nat>, permuted: seq<nat>)
    requires Linearizes(order, log) && |permuted| == |last| && multiset(permuted) == multiset(last)
    ensures Linearizes(order + permuted, log + [last])
  {
    var more := order + permuted;
    assert (log + [last])[..|log|] == log;
    assert more[|more| - |last|..] == permuted && more[..|more| - |last|] == order;
  }

  /** A batch with v before u. */
  lemma PutFirst(batch: seq<nat>, u: nat, v: nat) returns (permuted: seq<nat>, a: nat, b: nat)
    requires u in batch && v in batch && u != v
    ensures |permuted| == |batch| && multiset(permuted) == multiset(batch)
    ensures a < b < |batch| && permuted[a] == v && permuted[b] == u
  {
    var x :| 0 <= x < |batch| && batch[x] == u;
    var y :| 0 <= y < |batch| && batch[y] == v;
    if y < x {
      permuted, a, b := batch, y, x;
    } else {
      permuted, a, b := batch[x := v][y := u], x, y;
    }
  }

  /** What runs in the last sub-batch may take effect after v, which runs before or in the same one. */
  lemma LastMayComeLater(front: seq<nat>, before: seq<seq<nat>>, last: seq<nat>, u: nat, v: nat)
    returns (order: seq<nat>, a: nat, b: nat)
    requires Linearizes(front, before) && u in last && v !in last && v in front
    ensures Linearizes(order, before + [last])
    ensures a < b < |order| && order[a] == v && order[b] == u
  {
    a, b := PlacesOf(front, last, v, u);
    LinearizesOneMore(front, before, last, last);
    order := front + last;
  }

  lemma SameMayComeLater(front: seq<nat>, before: seq<seq<nat>>, last: seq<nat>, u: nat, v: nat)
    returns (order: seq<nat>, a: nat, b: nat)
    requires Linearizes(front, before) && u in last && v in last && u != v
    ensures Linearizes(order, before + [last])
    ensures a < b < |order| && order[a] == v && order[b] == u
  {
    var permuted;
    permuted, a, b := PutFirst(last, u, v);
    LinearizesOneMore(front, before, last, permuted);
    a, b, order := |front| + a, |front| + b, front + permuted;
  }

  lemma PlacesOf(front: seq<nat>, back: seq<nat>, v: nat, u: nat) returns (a: nat, b: nat)
    requires v in front && u in back
    ensures a < |front| <= b < |front + back| && (front + back)[a] == v && (front + back)[b] == u
  {
    a :| 0 <= a < |front| && front[a] == v;
    var x :| 0 <= x < |back| && back[x] == u;
    b := |front| + x;
  }

  /** What does not run before v in the sub-batches may take effect after it. */
  lemma {:induction false} MayComeLater(log: seq<seq<nat>>, u: nat, p: nat, v: nat, q: nat)
    returns (order: seq<nat>, a: nat, b: nat)
    requires q <= p < |log| && u in log[p] && v in log[q] && u != v
    ensures Linearizes(order, log)
    ensures a < b < |order| && order[a] == v && order[b] == u
    decreases |log|
  {
    var before, last := log[..|log| - 1], log[|log| - 1];
    assert before + [last] == log;
    if p < |before| {
      var shorter;
      shorter, a, b := MayComeLater(before, u, p, v, q);
      LinearizesOneMore(shorter, before, last, last);
      order := shorter + last;
    } else {
      FlatLinearizes(before);
      BeforeOrLast(before, last, v, q);
      if v in last {
        order, a, b := SameMayComeLater(Flat(before), before, last, u, v);
      } else {
        order, a, b := LastMayComeLater(Flat(before), before, last, u, v);
      }
    }
  }

  lemma BeforeOrLast(before: seq<seq<nat>>, last: seq<nat>, v: nat, q: nat)
    requires q <= |before| && v in (before + [last])[q]
    ensures v in Flat(before) || v in last
  {
    if q < |before| {
      assert v in before[q];
      InFlat(before, v);
    }
  }

  /** The effect that appends a transaction's number to a list kept in its leaf. */
  const RECORD: (nat, Option<seq<nat>>) -> seq<nat> := (i, x: Option<seq<nat>>) =>
    (if x.None? then [] else x.value) + [i]

  ghost predicate Positive(vs: seq<nat>) {
    forall k :: 0 <= k < |vs| ==> vs[k] > 0
  }

  /** The list has the numbers of the transactions that were executed, in their order. */
  ghost predicate Recorded(x: Option<seq<nat>>, vs: seq<nat>) {
    if vs == [] then x == None
    else x.Some? && |x.value| == |vs| && forall k :: 0 <= k < |vs| ==> x.value[k] + 1 == vs[k]
  }

  lemma {:induction false} FoldRecords(vs: seq<nat>)
    requires Positive(vs)
    ensures Recorded(Fold(RECORD, vs, None), vs)
  {
    if vs != [] {
      var before, v := vs[..|vs| - 1], vs[|vs| - 1];
      FoldRecords(before);
      var x := Fold(RECORD, before, None);
      assert v > 0 && Fold(RECORD, vs, None) == Some(RECORD(v - 1, x));
      assert RECORD(v - 1, x) == (if x.None? then [] else x.value) + [v - 1];
    }
  }

  lemma EqualRecords(vs: seq<nat>, us: seq<nat>)
    requires Positive(vs) && Positive(us)
    requires Fold(RECORD, vs, None) == Fold(RECORD, us, None)
    ensures vs == us
  {
    FoldRecords(vs);
    FoldRecords(us);
  }

  lemma {:induction false} OnLeafKeepsOrder<K>(deps: Deps<K>, key: K, order: seq<nat>, a: nat, b: nat)
    requires Increasing(OnLeaf(deps, key, order))
    requires a < b < |order| && Touches(deps, key, order[a]) && Touches(deps, key, order[b])
    ensures order[a] < order[b]
  {
    var prefix := order[..|order| - 1];
    var before := OnLeaf(deps, key, prefix);
    if b == |order| - 1 {
      assert prefix[a] == order[a];
      OnLeafMembers(deps, key, prefix, order[a]);
      var k :| 0 <= k < |before| && before[k] == order[a];
      var all := OnLeaf(deps, key, order);
      assert all == before + [order[b]];
      assert all[k] < all[|before|];
    } else {
      assert forall k :: 0 <= k < |before| ==> OnLeaf(deps, key, order)[k] == before[k];
      OnLeafKeepsOrder(deps, key, prefix, a, b);
    }
  }

  /** Equal recorded states mean that a leaf saw the same transactions in the same order. */
  lemma SameRecords<K>(deps: Deps<K>, order: seq<nat>, key: K)
    requires RunAll(deps, RECORD, order, map[]) == RunAll(deps, RECORD, TxNodes(|deps|), map[])
    ensures OnLeaf(deps, key, order) == OnLeaf(deps, key, TxNodes(|deps|))
  {
    var serial := TxNodes(|deps|);
    LeafValue(deps, RECORD, order, map[], key);
    LeafValue(deps, RECORD, serial, map[], key);
    OnLeafIsPositive(deps, key, order);
    OnLeafIsPositive(deps, key, serial);
    EqualRecords(OnLeaf(deps, key, order), OnLeaf(deps, key, serial));
  }

  /** An order in which two transactions on a leaf are swapped leaves another state. */
  lemma SwapShows<K>(deps: Deps<K>, order: seq<nat>, key: K, a: nat, b: nat)
    requires a < b < |order| && order[a] > order[b]
    requires Touches(deps, key, order[a]) && Touches(deps, key, order[b])
    ensures RunAll(deps, RECORD, order, map[]) != RunAll(deps, RECORD, TxNodes(|deps|), map[])
  {
    if RunAll(deps, RECORD, order, map[]) == RunAll(deps, RECORD, TxNodes(|deps|), map[]) {
      SameRecords(deps, order, key);
      SerialIncreasesOnLeaf(deps, key);
      OnLeafKeepsOrder(deps, key, order, a, b);
    }
  }

  lemma OnLeafIsPositive<K>(deps: Deps<K>, key: K, order: seq<nat>)
    ensures Positive(OnLeaf(deps, key, order))
  {
    var vs := OnLeaf(deps, key, order);
    forall k | 0 <= k < |vs|
      ensures vs[k] > 0
    {
      OnLeafMembers(deps, key, order, vs[k]);
    }
  }

  lemma ConflictTouches<K>(deps: Deps<K>, i: nat, j: nat)
    requires Conflict(deps, i, j)
    ensures Touches(deps, deps[i][0], i + 1) && Touches(deps, deps[i][0], j + 1)
  {
  }

  /**
   A schedule that runs each transaction once is serial for every effect and every order within sub-batches
   if and only if it runs conflicting transactions in order.
   */
  lemma SerialExactly<K(!new)>(deps: Deps<K>, log: seq<seq<nat>>)
    requires AtMostOneLeaf(deps) && EachOnce(deps, log)
    ensures AlwaysSerial(deps, log) <==> ConflictsInOrder(deps, log)
  {
    if i: nat, j: nat :| i < j && Conflict(deps, i, j) && !EndsBefore(log, i + 1, j + 1) {
      var p := BatchOf(deps, log, i + 1);
      var q := BatchOf(deps, log, j + 1);
      var order, a, b := MayComeLater(log, i + 1, p, j + 1, q);
      ConflictTouches(deps, i, j);
      SwapShows(deps, order, deps[i][0], a, b);
      assert Linearizes(order, log);
    } else {
      forall effect: (nat, Option<seq<nat>>) -> seq<nat>, order: seq<nat>, st: map<K, seq<nat>> | Linearizes(order, log)
        ensures RunAll(deps, effect, order, st) == RunAll(deps, effect, TxNodes(|deps|), st)
      {
        InOrderIsSerial(deps, effect, log, order, st);
      }
    }
  }
}
