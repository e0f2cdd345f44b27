/**
 The state at the end of the executer's whole run, over all windows, when each transaction declares at most
 one leaf: what running the fetched windows in order gives, and exactly when that is the serial state.
 */
module SerialRun {
  import opened Common
  import opened Graphs
  import opened Walks
  import opened Construction
  import opened Serial
  import opened Shifts
  import opened WholeRun

  lemma {:induction false} RunAllAppend<K, V>(deps: Deps<K>, effect: (nat, Option<V>) -> V, a: seq<nat>, b: seq<nat>, st: map<K, V>)
    ensures RunAll(deps, effect, a + b, st) == RunAll(deps, effect, b, RunAll(deps, effect, a, st))
  {
    if b == [] {
      assert a + b == a;
    } else {
      RunAllAppend(deps, effect, a, b[..|b| - 1], st);
      assert (a + b)[..|a + b| - 1] == a + b[..|b| - 1];
    }
  }

  lemma {:induction false} SplitLinearization(order: seq<nat>, a: seq<seq<nat>>, b: seq<seq<nat>>) returns (x: seq<nat>, y: seq<nat>)
    requires Linearizes(order, a + b)
    ensures order == x + y && Linearizes(x, a) && Linearizes(y, b)
    decreases |b|
  {
    if b == [] {
      x, y := SplitNothing(order, a, b);
    } else {
      var before, last := b[..|b| - 1], b[|b| - 1];
      assert before + [last] == b;
      var front, back := SplitLast(order, a, before, last);
      x, y := SplitLinearization(front, a, before);
      y := ThenLast(order, x, y, before, last, back);
    }
  }

  lemma SplitNothing(order: seq<nat>, a: seq<seq<nat>>, b: seq<seq<nat>>) returns (x: seq<nat>, y: seq<nat>)
    requires Linearizes(order, a + b) && b == []
    ensures order == x + y && Linearizes(x, a) && Linearizes(y, b)
  {
    assert a + b == a;
    x, y := order, [];
  }

  lemma SplitLast(order: seq<nat>, a: seq<seq<nat>>, before: seq<seq<nat>>, last: seq<nat>) returns (front: seq<nat>, back: seq<nat>)
    requires Linearizes(order, a + (before + [last]))
    ensures order == front + back && Linearizes(front, a + before)
    ensures |back| == |last| && multiset(back) == multiset(last)
  {
    var log := a + (before + [last]);
    assert log[..|log| - 1] == a + before && log[|log| - 1] == last;
    var n := |order| - |last|;
    front, back := order[..n], order[n..];
  }

  lemma ThenLast(order: seq<nat>, x: seq<nat>, y: seq<nat>, before: seq<seq<nat>>, last: seq<nat>, back: seq<nat>)
    returns (z: seq<nat>)
    requires Linearizes(y, before) && |back| == |last| && multiset(back) == multiset(last)
    requires order == x + y + back
    ensures order == x + z && Linearizes(z, before + [last])
  {
    LinearizesOneMore(y, before, last, back);
    z := y + back;
  }

  function Unshift(s: seq<nat>, lo: nat): seq<nat>
    requires forall i :: 0 <= i < |s| ==> s[i] >= lo
  {
    if s == [] then [] else Unshift(s[..|s| - 1], lo) + [s[|s| - 1] - lo]
  }

  lemma {:induction false} ShiftBack(s: seq<nat>, lo: nat)
    requires forall i :: 0 <= i < |s| ==> s[i] >= lo
    ensures |Unshift(s, lo)| == |s| && Shift(Unshift(s, lo), lo) == s
  {
    if s != [] {
      ShiftBack(s[..|s| - 1], lo);
      assert s == s[..|s| - 1] + [s[|s| - 1]];
    }
  }

  /** A permutation of shifted numbers is a shifted permutation. */
  lemma UnshiftBatch(batch: seq<nat>, order: seq<nat>, lo: nat) returns (z: seq<nat>)
    requires multiset(order) == multiset(Shift(batch, lo))
    ensures order == Shift(z, lo) && multiset(z) == multiset(batch) && |z| == |order| == |batch|
  {
    forall i | 0 <= i < |order|
      ensures order[i] >= lo
    {
      SameElements(order, Shift(batch, lo), order[i]);
      InShift(batch, lo, order[i]);
    }
    z := Unshift(order, lo);
    ShiftBack(order, lo);
    forall v: nat
      ensures multiset(z)[v] == multiset(batch)[v]
    {
      CountInShift(z, lo, v);
      CountInShift(batch, lo, v);
    }
    assert |multiset(order)| == |multiset(Shift(batch, lo))|;
    ShiftLength(batch, lo);
  }

  lemma LastOfShifted(order: seq<nat>, before: seq<seq<nat>>, last: seq<nat>, lo: nat, n: int)
    requires Linearizes(order, ShiftLog(before + [last], lo)) && n == |order| - |last|
    ensures n >= 0 && multiset(order[n..]) == multiset(Shift(last, lo))
    ensures Linearizes(order[..n], ShiftLog(before, lo))
  {
    ShiftLength(last, lo);
    assert (before + [last])[..|before|] == before;
    var shifted := ShiftLog(before, lo) + [Shift(last, lo)];
    assert ShiftLog(before + [last], lo) == shifted;
    assert shifted[..|shifted| - 1] == ShiftLog(before, lo);
  }

  lemma {:induction false} UnshiftOrder(order: seq<nat>, log: seq<seq<nat>>, lo: nat) returns (z: seq<nat>)
    requires Linearizes(order, ShiftLog(log, lo))
    ensures order == Shift(z, lo) && Linearizes(z, log)
    decreases |log|
  {
    if log == [] {
      z := [];
    } else {
      var before, last := log[..|log| - 1], log[|log| - 1];
      assert before + [last] == log;
      var n := |order| - |last|;
      LastOfShifted(order, before, last, lo, n);
      var z' := UnshiftOrder(order[..n], before, lo);
      var y := UnshiftBatch(last, order[n..], lo);
      z := UnshiftedOrders(order, before, last, lo, n, z', y);
    }
  }

  lemma UnshiftedOrders(order: seq<nat>, before: seq<seq<nat>>, last: seq<nat>, lo: nat, n: nat, a: seq<nat>, b: seq<nat>)
    returns (z: seq<nat>)
    requires n <= |order| && order[..n] == Shift(a, lo) && order[n..] == Shift(b, lo)
    requires Linearizes(a, before) && |b| == |last| && multiset(b) == multiset(last)
    ensures order == Shift(z, lo) && Linearizes(z, before + [last])
  {
    z := a + b;
    LinearizesOneMore(a, before, last, b);
    ShiftAppend(a, b, lo);
    assert order[..n] + order[n..] == order;
  }

  /** The effect of the transactions after the first lo. */
  function Later<V>(effect: (nat, Option<V>) -> V, lo: nat): (nat, Option<V>) -> V {
    (i: nat, x: Option<V>) => effect(i + lo, x)
  }

  lemma ShiftOneMore(s: seq<nat>, x: nat, lo: nat)
    ensures Shift(s + [x], lo) == Shift(s, lo) + [x + lo]
  {
    assert (s + [x])[..|s|] == s;
  }

  lemma RunOneMore<K, V>(deps: Deps<K>, effect: (nat, Option<V>) -> V, order: seq<nat>, v: nat, st: map<K, V>)
    ensures RunAll(deps, effect, order + [v], st) == RunTx(deps, effect, RunAll(deps, effect, order, st), v)
  {
    assert (order + [v])[..|order|] == order;
  }

  /** Transaction v of a window is transaction lo + v of the sequence. */
  ghost predicate SameTx<K>(deps: Deps<K>, rows: Deps<K>, lo: nat, v: nat) {
    0 < v <= |rows| && lo + v <= |deps| && rows[v - 1] == deps[lo + v - 1]
  }

  lemma RunTxShifted<K, V>(deps: Deps<K>, rows: Deps<K>, effect: (nat, Option<V>) -> V, lo: nat, v: nat, st: map<K, V>)
    requires SameTx(deps, rows, lo, v)
    ensures RunTx(deps, effect, st, v + lo) == RunTx(rows, Later(effect, lo), st, v)
  {
  }

  lemma {:induction false} RunShifted<K, V>(deps: Deps<K>, rows: Deps<K>, effect: (nat, Option<V>) -> V, lo: nat, z: seq<nat>, st: map<K, V>)
    requires forall k :: 0 <= k < |z| ==> SameTx(deps, rows, lo, z[k])
    ensures RunAll(deps, effect, Shift(z, lo), st) == RunAll(rows, Later(effect, lo), z, st)
  {
    if z != [] {
      var before, v := z[..|z| - 1], z[|z| - 1];
      RunShifted(deps, rows, effect, lo, before, st);
      ShiftedOneMore(deps, rows, effect, lo, before, v, st);
      assert z == before + [v];
    }
  }

  lemma ShiftedOneMore<K, V>(deps: Deps<K>, rows: Deps<K>, effect: (nat, Option<V>) -> V, lo: nat, z: seq<nat>, v: nat, st: map<K, V>)
    requires SameTx(deps, rows, lo, v)
    requires RunAll(deps, effect, Shift(z, lo), st) == RunAll(rows, Later(effect, lo), z, st)
    ensures RunAll(deps, effect, Shift(z + [v], lo), st) == RunAll(rows, Later(effect, lo), z + [v], st)
  {
    ShiftOneMore(z, v, lo);
    RunOneMore(deps, effect, Shift(z, lo), v + lo, st);
    RunOneMore(rows, Later(effect, lo), z, v, st);
    RunTxShifted(deps, rows, effect, lo, v, RunAll(rows, Later(effect, lo), z, st));
  }

  /** How many transactions window k fetches. */
  function RowCount(k: nat, height: nat): nat {
    if First(k) <= Reach(k, height) then Reach(k, height) - First(k) else 0
  }

  /** Window k in sequence order. */
  function WindowOrder(k: nat, height: nat): seq<nat> {
    Shift(TxNodes(RowCount(k, height)), First(k))
  }

  /** The transactions that the first n windows fetch, window by window in sequence order. */
  function FetchedOrder(n: nat, height: nat): seq<nat> {
    if n == 0 then [] else FetchedOrder(n - 1, height) + WindowOrder(n - 1, height)
  }

  /** Any order of effects within the sub-batches leaves what the serial order leaves. */
  ghost predicate SerialAs<K(!new), V(!new)>(deps: Deps<K>, effect: (nat, Option<V>) -> V, log: seq<seq<nat>>, serial: seq<nat>) {
    forall order: seq<nat>, st: map<K, V> | Linearizes(order, log) ::
      RunAll(deps, effect, order, st) == RunAll(deps, effect, serial, st)
  }

  lemma AllSameTx<K>(deps: Deps<K>, rows: Deps<K>, lo: nat, z: seq<nat>)
    requires lo + |rows| <= |deps| && forall i :: 0 <= i < |rows| ==> rows[i] == deps[lo + i]
    requires forall k :: 0 <= k < |z| ==> 0 < z[k] <= |rows|
    ensures forall k :: 0 <= k < |z| ==> SameTx(deps, rows, lo, z[k])
  {
    forall k | 0 <= k < |z|
      ensures SameTx(deps, rows, lo, z[k])
    {
      assert rows[z[k] - 1] == deps[lo + (z[k] - 1)];
    }
  }

  lemma ShiftedIsSerial<K, V>(deps: Deps<K>, rows: Deps<K>, effect: (nat, Option<V>) -> V, lo: nat, log: seq<seq<nat>>,
                              order: seq<nat>, st: map<K, V>)
    requires lo + |rows| <= |deps| && forall i :: 0 <= i < |rows| ==> rows[i] == deps[lo + i]
    requires AtMostOneLeaf(rows) && EachOnce(rows, log) && ConflictsInOrder(rows, log)
    requires Linearizes(order, ShiftLog(log, lo))
    ensures RunAll(deps, effect, order, st) == RunAll(deps, effect, Shift(TxNodes(|rows|), lo), st)
  {
    var z := UnshiftOrder(order, log, lo);
    RowsAreSerial(rows, Later(effect, lo), log, z, st);
    AllSameTx(deps, rows, lo, z);
    RunShifted(deps, rows, effect, lo, z, st);
    TxNodesInOrder(|rows|);
    AllSameTx(deps, rows, lo, TxNodes(|rows|));
    RunShifted(deps, rows, effect, lo, TxNodes(|rows|), st);
  }

  lemma RowsAreSerial<K, V>(rows: Deps<K>, effect: (nat, Option<V>) -> V, log: seq<seq<nat>>, z: seq<nat>, st: map<K, V>)
    requires AtMostOneLeaf(rows) && EachOnce(rows, log) && ConflictsInOrder(rows, log) && Linearizes(z, log)
    ensures forall a :: 0 <= a < |z| ==> 0 < z[a] <= |rows|
    ensures RunAll(rows, effect, z, st) == RunAll(rows, effect, TxNodes(|rows|), st)
  {
    forall a | 0 <= a < |z|
      ensures 0 < z[a] <= |rows|
    {
      ScheduleRunsAll(rows, log, z, z[a]);
    }
    InOrderIsSerial(rows, effect, log, z, st);
  }

  lemma WalkedIsSerial<K(!new), V(!new)>(deps: Deps<K>, rows: Deps<K>, effect: (nat, Option<V>) -> V, lo: nat, part: seq<seq<nat>>)
    requires lo + |rows| <= |deps| && forall i :: 0 <= i < |rows| ==> rows[i] == deps[lo + i]
    requires AtMostOneLeaf(rows) && Walked(rows, lo, part)
    ensures SerialAs(deps, effect, part, Shift(TxNodes(|rows|), lo))
  {
    var log := LogOf(rows, lo, part);
    WalkIsInOrder(rows, log);
    LogIsSerial(deps, rows, effect, lo, log);
  }

  lemma LogIsSerial<K(!new), V(!new)>(deps: Deps<K>, rows: Deps<K>, effect: (nat, Option<V>) -> V, lo: nat, log: seq<seq<nat>>)
    requires lo + |rows| <= |deps| && forall i :: 0 <= i < |rows| ==> rows[i] == deps[lo + i]
    requires AtMostOneLeaf(rows) && EachOnce(rows, log) && ConflictsInOrder(rows, log)
    ensures SerialAs(deps, effect, ShiftLog(log, lo), Shift(TxNodes(|rows|), lo))
  {
    forall order: seq<nat>, st: map<K, V> | Linearizes(order, ShiftLog(log, lo))
      ensures RunAll(deps, effect, order, st) == RunAll(deps, effect, Shift(TxNodes(|rows|), lo), st)
    {
      ShiftedIsSerial(deps, rows, effect, lo, log, order, st);
    }
  }

  lemma PartIsSerial<K(!new), V(!new)>(deps: Deps<K>, effect: (nat, Option<V>) -> V, k: nat, part: seq<seq<nat>>)
    requires AtMostOneLeaf(deps) && WindowPart(deps, k, part)
    ensures SerialAs(deps, effect, part, WindowOrder(k, |deps|))
  {
    var rows, lo := WindowOf(deps, k, part);
    RowsHaveOneLeaf(deps, k, rows, lo);
    WalkedIsSerial(deps, rows, effect, lo, part);
  }

  lemma JoinSerial<K(!new), V(!new)>(deps: Deps<K>, effect: (nat, Option<V>) -> V, a: seq<seq<nat>>, b: seq<seq<nat>>,
                                     sa: seq<nat>, sb: seq<nat>)
    requires SerialAs(deps, effect, a, sa) && SerialAs(deps, effect, b, sb)
    ensures SerialAs(deps, effect, a + b, sa + sb)
  {
    forall order: seq<nat>, st: map<K, V> | Linearizes(order, a + b)
      ensures RunAll(deps, effect, order, st) == RunAll(deps, effect, sa + sb, st)
    {
      var x, y := SplitLinearization(order, a, b);
      RunAllAppend(deps, effect, x, y, st);
      RunAllAppend(deps, effect, sa, sb, st);
    }
  }

  lemma NothingIsSerial<K(!new), V(!new)>(deps: Deps<K>, effect: (nat, Option<V>) -> V)
    ensures SerialAs(deps, effect, [], [])
  {
  }

  lemma {:induction false} PartsAreSerial<K(!new), V(!new)>(deps: Deps<K>, effect: (nat, Option<V>) -> V, parts: seq<seq<seq<nat>>>)
    requires forall k :: 0 <= k < |parts| ==> SerialAs(deps, effect, parts[k], WindowOrder(k, |deps|))
    ensures SerialAs(deps, effect, Joined(parts), FetchedOrder(|parts|, |deps|))
    decreases |parts|
  {
    if parts == [] {
      NothingIsSerial(deps, effect);
    } else {
      var k := |parts| - 1;
      PartsAreSerial(deps, effect, parts[..k]);
      assert SerialAs(deps, effect, parts[k], WindowOrder(k, |deps|));
      JoinSerial(deps, effect, Joined(parts[..k]), parts[k], FetchedOrder(k, |deps|), WindowOrder(k, |deps|));
    }
  }

  /**
   The whole run with at most one leaf each: it ends in the state of running what the windows fetch in
   sequence order, whatever order the transactions of each sub-batch take effect in. A transaction at a
   window boundary is run twice, by `ExecutedAsOftenAsFetched`; when that does not show, the state is serial.
   */
  lemma WholeRunIsSerial<K(!new), V(!new)>(deps: Deps<K>, effect: (nat, Option<V>) -> V, parts: seq<seq<seq<nat>>>,
                                           order: seq<nat>, st: map<K, V>)
    requires AtMostOneLeaf(deps) && IsWholeRun(deps, parts) && Linearizes(order, Joined(parts))
    ensures RunAll(deps, effect, order, st) == RunAll(deps, effect, FetchedOrder(|parts|, |deps|), st)
  {
    forall k | 0 <= k < |parts|
      ensures SerialAs(deps, effect, parts[k], WindowOrder(k, |deps|))
    {
      assert WindowPart(deps, k, parts[k]);
      PartIsSerial(deps, effect, k, parts[k]);
    }
    PartsAreSerial(deps, effect, parts);
  }

  // ---------- Exactly when the whole run is serial ----------

  /** No transaction at a window boundary below the height declares a leaf. */
  ghost predicate BoundariesAreFree<K>(deps: Deps<K>) {
    forall num: nat :: 0 < num < |deps| ==> FreeAt(deps, num)
  }

  ghost predicate FreeAt<K>(deps: Deps<K>, num: nat)
    requires 0 < num < |deps|
  {
    num % 1000 == 0 ==> deps[num - 1] == []
  }

  lemma {:induction false} NodesInTwo(lo: nat, m: nat)
    ensures TxNodes(lo + m) == TxNodes(lo) + Shift(TxNodes(m), lo)
  {
    if m > 0 {
      NodesInTwo(lo, m - 1);
      ShiftOneMore(TxNodes(m - 1), m, lo);
      Regrouped(TxNodes(lo), Shift(TxNodes(m - 1), lo), [m + lo]);
    }
  }

  lemma Regrouped(a: seq<nat>, b: seq<nat>, c: seq<nat>)
    ensures a + b + c == a + (b + c)
  {
  }

  lemma RangeContinues<K, V>(deps: Deps<K>, effect: (nat, Option<V>) -> V, lo: nat, m: nat, st: map<K, V>)
    ensures RunAll(deps, effect, Shift(TxNodes(m), lo), RunAll(deps, effect, TxNodes(lo), st)) ==
            RunAll(deps, effect, TxNodes(lo + m), st)
  {
    NodesInTwo(lo, m);
    RunAllAppend(deps, effect, TxNodes(lo), Shift(TxNodes(m), lo), st);
  }

  /** Running a window after a boundary transaction without leaves is running the transactions after it. */
  lemma WindowContinues<K, V>(deps: Deps<K>, effect: (nat, Option<V>) -> V, lo: nat, m: nat, st: map<K, V>)
    requires lo < |deps| && deps[lo] == []
    ensures RunAll(deps, effect, Shift(TxNodes(m), lo), RunAll(deps, effect, TxNodes(lo + 1), st)) ==
            RunAll(deps, effect, TxNodes(lo + m), st)
  {
    RunOneMore(deps, effect, TxNodes(lo), lo + 1, st);
    RangeContinues(deps, effect, lo, m, st);
  }

  /** Window k, with m rows, takes the serial state after `before` transactions to that after `reach`. */
  lemma RunWindow<K, V>(deps: Deps<K>, effect: (nat, Option<V>) -> V, lo: nat, m: nat, before: nat, reach: nat, st: map<K, V>)
    requires reach == lo + m
    requires before == lo || (before == lo + 1 <= |deps| && deps[lo] == [])
    ensures RunAll(deps, effect, Shift(TxNodes(m), lo), RunAll(deps, effect, TxNodes(before), st)) ==
            RunAll(deps, effect, TxNodes(reach), st)
  {
    if before == lo {
      RangeContinues(deps, effect, lo, m, st);
    } else {
      WindowContinues(deps, effect, lo, m, st);
    }
  }

  /** Where window k starts: right after the first 1000 * k transactions, or with the last of them. */
  lemma WindowStarts<K>(deps: Deps<K>, k: nat, before: nat)
    requires BoundariesAreFree(deps) && before == 1000 * k < |deps|
    ensures First(k) + RowCount(k, |deps|) == Reach(k, |deps|)
    ensures before == First(k) || (before == First(k) + 1 <= |deps| && deps[First(k)] == [])
  {
    if k > 0 {
      assert FreeAt(deps, before);
    }
  }

  /** One window more. */
  lemma FetchedOneMore<K, V>(deps: Deps<K>, effect: (nat, Option<V>) -> V, k: nat, reach: nat, st: map<K, V>)
    requires BoundariesAreFree(deps) && 1000 * k < |deps| && reach == Reach(k, |deps|)
    requires RunAll(deps, effect, FetchedOrder(k, |deps|), st) == RunAll(deps, effect, TxNodes(1000 * k), st)
    ensures RunAll(deps, effect, FetchedOrder(k + 1, |deps|), st) == RunAll(deps, effect, TxNodes(reach), st)
  {
    RunAllAppend(deps, effect, FetchedOrder(k, |deps|), WindowOrder(k, |deps|), st);
    WindowStarts(deps, k, 1000 * k);
    RunWindow(deps, effect, First(k), RowCount(k, |deps|), 1000 * k, reach, st);
  }

  lemma {:induction false} FetchedIsSerial<K, V>(deps: Deps<K>, effect: (nat, Option<V>) -> V, n: nat, reach: nat, st: map<K, V>)
    requires BoundariesAreFree(deps) && (n > 0 ==> 1000 * (n - 1) < |deps|) && reach == Min(1000 * n, |deps|)
    ensures RunAll(deps, effect, FetchedOrder(n, |deps|), st) == RunAll(deps, effect, TxNodes(reach), st)
    decreases n
  {
    if n > 0 {
      FetchedIsSerial(deps, effect, n - 1, 1000 * (n - 1), st);
      FetchedOneMore(deps, effect, n - 1, reach, st);
    }
  }

  /** Without leaves at boundaries the whole run ends in the serial state, for effects on any values. */
  lemma FreeBoundariesAreSerial<K(!new), V(!new)>(deps: Deps<K>, effect: (nat, Option<V>) -> V, parts: seq<seq<seq<nat>>>,
                                                  order: seq<nat>, st: map<K, V>)
    requires AtMostOneLeaf(deps) && IsWholeRun(deps, parts) && BoundariesAreFree(deps)
    requires Linearizes(order, Joined(parts))
    ensures RunAll(deps, effect, order, st) == RunAll(deps, effect, TxNodes(|deps|), st)
  {
    WholeRunIsSerial(deps, effect, parts, order, st);
    FetchedIsSerial(deps, effect, |parts|, |deps|, st);
  }

  lemma {:induction false} CountOnLeaf<K>(deps: Deps<K>, key: K, order: seq<nat>, v: nat)
    requires Touches(deps, key, v)
    ensures multiset(OnLeaf(deps, key, order))[v] == multiset(order)[v]
  {
    if order != [] {
      var before, last := order[..|order| - 1], order[|order| - 1];
      CountOnLeaf(deps, key, before, v);
      CountLastOnLeaf(deps, key, order, before, last, v);
    }
  }

  lemma CountLastOnLeaf<K>(deps: Deps<K>, key: K, order: seq<nat>, before: seq<nat>, last: nat, v: nat)
    requires order == before + [last] && Touches(deps, key, v)
    requires multiset(OnLeaf(deps, key, before))[v] == multiset(before)[v]
    ensures multiset(OnLeaf(deps, key, order))[v] == multiset(order)[v]
  {
    assert order[..|before|] == before;
    CountOneElement(before, last, v);
    CountOneElement(OnLeaf(deps, key, before), last, v);
  }

  /** A transaction with a leaf that takes effect twice leaves another state than the serial one. */
  lemma TwiceShows<K>(deps: Deps<K>, order: seq<nat>, v: nat)
    requires 0 < v <= |deps| && deps[v - 1] != [] && multiset(order)[v] >= 2
    ensures RunAll(deps, RECORD, order, map[]) != RunAll(deps, RECORD, TxNodes(|deps|), map[])
  {
    var key := deps[v - 1][0];
    if RunAll(deps, RECORD, order, map[]) == RunAll(deps, RECORD, TxNodes(|deps|), map[]) {
      SameRecords(deps, order, key);
      CountOnLeaf(deps, key, order, v);
      CountOnLeaf(deps, key, TxNodes(|deps|), v);
      EachNodeOnce(|deps|, v);
    }
  }

  /** A boundary transaction with a leaf takes effect twice, in every order the run can have. */
  lemma BoundaryShows<K(!new)>(deps: Deps<K>, log: seq<seq<nat>>, num: nat)
    requires 0 < num <= |deps| && deps[num - 1] != [] && Executions(log, num) == 2
    ensures !AlwaysSerial(deps, log)
  {
    var order := Flat(log);
    FlatLinearizes(log);
    TwiceShows(deps, order, num);
    assert Linearizes(order, log);
  }

  /**
   The whole run, with at most one leaf each, ends in the serial state for all effects and all orders within
   sub-batches if and only if no transaction at a window boundary below the height declares a leaf.
   */
  lemma WholeRunSerialExactly<K(!new)>(deps: Deps<K>, parts: seq<seq<seq<nat>>>)
    requires AtMostOneLeaf(deps) && IsWholeRun(deps, parts)
    ensures AlwaysSerial(deps, Joined(parts)) <==> BoundariesAreFree(deps)
  {
    if BoundariesAreFree(deps) {
      forall effect: (nat, Option<seq<nat>>) -> seq<nat>, order: seq<nat>, st: map<K, seq<nat>> | Linearizes(order, Joined(parts))
        ensures RunAll(deps, effect, order, st) == RunAll(deps, effect, TxNodes(|deps|), st)
      {
        FreeBoundariesAreSerial(deps, effect, parts, order, st);
      }
    } else {
      var num: nat :| 0 < num < |deps| && !FreeAt(deps, num);
      ExecutedAsOftenAsFetched(deps, parts, num);
      BoundaryShows(deps, Joined(parts), num);
    }
  }
}
