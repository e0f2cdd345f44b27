/**
 The whole run of the executer with the map as the source keys it, and exactly when it ends in the serial
 state.
 */
module AsWrittenRun {
  import opened Common
  import opened Graphs
  import opened Walks
  import opened Construction
  import opened Executer
  import opened Serial
  import opened AsWritten
  import opened Shifts
  import opened WholeRun
  import opened SerialRun

  // ---------- One window ----------

  lemma RowsAreAddresses<K>(leaves: Deps<K>, keys: Deps<nat>, k: nat, rows: Deps<nat>, lo: nat)
    requires keys == AddressKeys(leaves) && IsWindow(keys, k, rows, lo)
    ensures Addresses(rows, lo)
  {
    KeysAreAddresses(leaves, keys);
    forall i | 0 <= i < |rows|
      ensures OwnKeys(rows[i], lo + i)
    {
      assert OwnKeys(keys[lo + i], 0 + (lo + i));
      assert rows[i] == keys[lo + i];
    }
  }

  /** Where the walk over addresses ends, each transaction declares at most one leaf. */
  lemma AddressesNeedOneLeaf(keys: Deps<nat>, lo: nat, log: seq<seq<nat>>)
    requires Addresses(keys, lo) && EndsWith(AllEdges(keys), log)
    ensures AtMostOneLeaf(keys)
  {
    BuiltWalkHaltsExactly(keys);
    forall i | 0 <= i < |keys|
      ensures |keys[i]| <= 1
    {
      assert OwnKeys(keys[i], lo + i);
      TwoOwnKeys(keys[i], lo + i);
    }
  }

  lemma TwoOwnKeys(keys: seq<nat>, own: nat)
    requires OwnKeys(keys, own)
    ensures |keys| > 1 ==> !NoDuplicates(keys)
  {
    if |keys| > 1 {
      assert keys[0] == keys[1];
    }
  }

  /** So a window runs its transactions in groups of 100. */
  lemma WindowSchedule<K>(leaves: Deps<K>, keys: Deps<nat>, k: nat, rows: Deps<nat>, lo: nat, part: seq<seq<nat>>)
    requires keys == AddressKeys(leaves) && IsWindow(keys, k, rows, lo) && Walked(rows, lo, part)
    ensures AtMostOneLeaf(rows) && part == ShiftLog(SubBatches(TxNodes(|rows|)), lo)
  {
    RowsAreAddresses(leaves, keys, k, rows, lo);
    var log := LogOf(rows, lo, part);
    AddressesNeedOneLeaf(rows, lo, log);
    AddressSchedule(rows, lo);
    EndsOnce(AllEdges(rows), log, SubBatches(TxNodes(|rows|)));
  }

  /** Every transaction is in some window. */
  lemma WindowOfTx<K(!new)>(deps: Deps<K>, parts: seq<seq<seq<nat>>>, i: nat) returns (k: nat, rows: Deps<K>, lo: nat)
    requires IsWholeRun(deps, parts) && i < |deps|
    ensures k < |parts| && IsWindow(deps, k, rows, lo) && Walked(rows, lo, parts[k]) && lo <= i < lo + |rows|
  {
    k := i / 1000;
    assert WindowPart(deps, k, parts[k]);
    rows, lo := WindowOf(deps, k, parts[k]);
  }

  /** So a run that ends has at most one leaf for each transaction. */
  lemma RunNeedsOneLeaf<K>(leaves: Deps<K>, keys: Deps<nat>, parts: seq<seq<seq<nat>>>)
    requires keys == AddressKeys(leaves) && IsWholeRun(keys, parts)
    ensures AtMostOneLeaf(keys) && AtMostOneLeaf(leaves)
  {
    KeysAreAddresses(leaves, keys);
    forall i | 0 <= i < |leaves|
      ensures |keys[i]| <= 1 && |leaves[i]| <= 1
    {
      var k, rows, lo := WindowOfTx(keys, parts, i);
      WindowSchedule(leaves, keys, k, rows, lo, parts[k]);
      assert rows[i - lo] == keys[lo + (i - lo)];
    }
  }

  // ---------- Runs that are serial ----------

  /** No two transactions of one group of 100 of window k declare the same leaf. */
  ghost predicate WindowIsFree<K>(leaves: Deps<K>, k: nat) {
    forall i: nat, j: nat :: i < j && Conflict(leaves, i, j) ==> !SameGroup(k, i, j)
  }

  /** Window k fetches both transactions and runs them in one sub-batch. */
  ghost predicate SameGroup(k: nat, i: nat, j: nat) {
    && InWindow(k, i + 1) && InWindow(k, j + 1)
    && (i - First(k)) / 100 == (j - First(k)) / 100
  }

  lemma GroupsInOrder<K>(leaves: Deps<K>, k: nat, rows: Deps<K>, lo: nat, log: seq<seq<nat>>)
    requires IsWindow(leaves, k, rows, lo) && WindowIsFree(leaves, k) && log == SubBatches(TxNodes(|rows|))
    ensures ConflictsInOrder(rows, log)
  {
    forall i: nat, j: nat | i < j && Conflict(rows, i, j)
      ensures EndsBefore(log, i + 1, j + 1)
    {
      ConflictInWindow(leaves, k, rows, lo, i, j);
      LastGroup(|rows|, i);
      LastGroup(|rows|, j);
    }
  }

  lemma ConflictInWindow<K>(leaves: Deps<K>, k: nat, rows: Deps<K>, lo: nat, i: nat, j: nat)
    requires IsWindow(leaves, k, rows, lo) && WindowIsFree(leaves, k) && i < j && Conflict(rows, i, j)
    ensures i / 100 < j / 100
  {
    assert rows[i] == leaves[lo + i] && rows[j] == leaves[lo + j];
    assert Conflict(leaves, lo + i, lo + j);
    InRows(leaves, k, rows, lo, lo + i + 1);
    InRows(leaves, k, rows, lo, lo + j + 1);
  }

  /** The leaves of a window's transactions. */
  lemma LeavesOfWindow<K>(leaves: Deps<K>, keys: Deps<nat>, k: nat, keyRows: Deps<nat>, lo: nat) returns (rows: Deps<K>)
    requires keys == AddressKeys(leaves) && IsWindow(keys, k, keyRows, lo)
    ensures IsWindow(leaves, k, rows, lo) && |rows| == |keyRows|
  {
    KeysAreAddresses(leaves, keys);
    rows := leaves[lo..lo + |keyRows|];
  }

  lemma FreeWindowIsSerial<K(!new), V(!new)>(leaves: Deps<K>, effect: (nat, Option<V>) -> V, keys: Deps<nat>, k: nat, part: seq<seq<nat>>)
    requires keys == AddressKeys(leaves) && AtMostOneLeaf(leaves) && WindowPart(keys, k, part) && WindowIsFree(leaves, k)
    ensures SerialAs(leaves, effect, part, WindowOrder(k, |leaves|))
  {
    KeysAreAddresses(leaves, keys);
    var keyRows, lo := WindowOf(keys, k, part);
    WindowSchedule(leaves, keys, k, keyRows, lo, part);
    var rows := LeavesOfWindow(leaves, keys, k, keyRows, lo);
    RowsHaveOneLeaf(leaves, k, rows, lo);
    var log := SubBatches(TxNodes(|rows|));
    GroupsRunEachOnce(rows, log);
    GroupsInOrder(leaves, k, rows, lo, log);
    LogIsSerial(leaves, rows, effect, lo, log);
  }

  ghost predicate WindowsAreFree<K>(leaves: Deps<K>, n: nat) {
    forall k :: 0 <= k < n ==> WindowIsFree(leaves, k)
  }

  lemma FreeRunIsSerial<K(!new), V(!new)>(leaves: Deps<K>, effect: (nat, Option<V>) -> V, keys: Deps<nat>, parts: seq<seq<seq<nat>>>,
                                          order: seq<nat>, st: map<K, V>)
    requires keys == AddressKeys(leaves) && IsWholeRun(keys, parts) && Linearizes(order, Joined(parts))
    requires BoundariesAreFree(leaves) && WindowsAreFree(leaves, |parts|)
    ensures RunAll(leaves, effect, order, st) == RunAll(leaves, effect, TxNodes(|leaves|), st)
  {
    RunNeedsOneLeaf(leaves, keys, parts);
    KeysAreAddresses(leaves, keys);
    forall k | 0 <= k < |parts|
      ensures SerialAs(leaves, effect, parts[k], WindowOrder(k, |leaves|))
    {
      assert WindowPart(keys, k, parts[k]) && WindowIsFree(leaves, k);
      FreeWindowIsSerial(leaves, effect, keys, k, parts[k]);
    }
    PartsAreSerial(leaves, effect, parts);
    FetchedIsSerial(leaves, effect, |parts|, |leaves|, st);
  }

  // ---------- Runs that are not ----------

  /** Two transactions of one sub-batch may take effect in either order. */
  lemma SameBatchShows<K(!new)>(deps: Deps<K>, log: seq<seq<nat>>, p: nat, i: nat, j: nat)
    requires i < j && Conflict(deps, i, j) && p < |log| && i + 1 in log[p] && j + 1 in log[p]
    ensures !AlwaysSerial(deps, log)
  {
    var order, a, b := MayComeLater(log, i + 1, p, j + 1, p);
    ConflictTouches(deps, i, j);
    SwapShows(deps, order, deps[i][0], a, b);
    assert Linearizes(order, log);
  }

  lemma {:induction false} BatchOfJoined(parts: seq<seq<seq<nat>>>, k: nat, p: nat) returns (q: nat)
    requires k < |parts| && p < |parts[k]|
    ensures q < |Joined(parts)| && Joined(parts)[q] == parts[k][p]
    decreases |parts|
  {
    var before := parts[..|parts| - 1];
    if k < |before| {
      q := BatchOfJoined(before, k, p);
    } else {
      q := |Joined(before)| + p;
    }
  }

  /** Transaction i of a window is in sub-batch i / 100. */
  ghost predicate InGroup(log: seq<seq<nat>>, i: nat) {
    i / 100 < |log| && i + 1 in log[i / 100]
  }

  lemma GroupsOf(n: nat, log: seq<seq<nat>>)
    requires log == SubBatches(TxNodes(n))
    ensures forall i :: 0 <= i < n ==> InGroup(log, i)
  {
    forall i | 0 <= i < n
      ensures InGroup(log, i)
    {
      LastGroup(n, i);
    }
  }

  lemma WindowGroups<K>(leaves: Deps<K>, keys: Deps<nat>, k: nat, part: seq<seq<nat>>)
    returns (rows: Deps<nat>, lo: nat, log: seq<seq<nat>>)
    requires keys == AddressKeys(leaves) && WindowPart(keys, k, part)
    ensures IsWindow(keys, k, rows, lo) && part == ShiftLog(log, lo)
    ensures forall i :: 0 <= i < |rows| ==> InGroup(log, i)
  {
    rows, lo := WindowOf(keys, k, part);
    WindowSchedule(leaves, keys, k, rows, lo, part);
    log := SubBatches(TxNodes(|rows|));
    GroupsOf(|rows|, log);
  }

  lemma BothShifted(log: seq<seq<nat>>, lo: nat, p: nat, u: nat, v: nat)
    requires p < |log| && u in log[p] && v in log[p]
    ensures |ShiftLog(log, lo)| == |log| && u + lo in ShiftLog(log, lo)[p] && v + lo in ShiftLog(log, lo)[p]
  {
    RunsInBatch(log, lo, p, u + lo);
    RunsInBatch(log, lo, p, v + lo);
  }

  /** The sub-batch in which a window runs two transactions of one group. */
  lemma GroupOfPart<K>(leaves: Deps<K>, keys: Deps<nat>, part: seq<seq<nat>>, k: nat, i: nat, j: nat) returns (p: nat)
    requires keys == AddressKeys(leaves) && WindowPart(keys, k, part)
    requires i < |keys| && j < |keys| && SameGroup(k, i, j)
    ensures p < |part| && i + 1 in part[p] && j + 1 in part[p]
  {
    var rows, lo, log := WindowGroups(leaves, keys, k, part);
    p := GroupOfWindow(keys, k, rows, lo, log, part, i, j);
  }

  lemma GroupOfWindow<T>(txs: seq<T>, k: nat, rows: seq<T>, lo: nat, log: seq<seq<nat>>, part: seq<seq<nat>>, i: nat, j: nat)
    returns (p: nat)
    requires IsWindow(txs, k, rows, lo) && part == ShiftLog(log, lo)
    requires forall m :: 0 <= m < |rows| ==> InGroup(log, m)
    requires i < |txs| && j < |txs| && SameGroup(k, i, j)
    ensures p < |part| && i + 1 in part[p] && j + 1 in part[p]
  {
    var i', j' := PlacesInWindow(txs, k, rows, lo, i, j);
    assert InGroup(log, i') && InGroup(log, j');
    p := SameGroupInPart(log, lo, part, i', j');
  }

  lemma PlacesInWindow<T>(txs: seq<T>, k: nat, rows: seq<T>, lo: nat, i: nat, j: nat) returns (i': nat, j': nat)
    requires IsWindow(txs, k, rows, lo) && i < |txs| && j < |txs| && SameGroup(k, i, j)
    ensures i == i' + lo && j == j' + lo && i' < |rows| && j' < |rows| && i' / 100 == j' / 100
  {
    InRows(txs, k, rows, lo, i + 1);
    InRows(txs, k, rows, lo, j + 1);
    i', j' := i - lo, j - lo;
  }

  lemma SameGroupInPart(log: seq<seq<nat>>, lo: nat, part: seq<seq<nat>>, i: nat, j: nat) returns (p: nat)
    requires part == ShiftLog(log, lo) && InGroup(log, i) && InGroup(log, j) && i / 100 == j / 100
    ensures p < |part| && i + lo + 1 in part[p] && j + lo + 1 in part[p]
  {
    p := i / 100;
    BothShifted(log, lo, p, i + 1, j + 1);
  }

  lemma GroupShows<K(!new)>(leaves: Deps<K>, keys: Deps<nat>, parts: seq<seq<seq<nat>>>, k: nat, i: nat, j: nat)
    requires keys == AddressKeys(leaves) && Parts(keys, parts) && k < |parts|
    requires i < j && Conflict(leaves, i, j) && SameGroup(k, i, j)
    ensures !AlwaysSerial(leaves, Joined(parts))
  {
    KeysAreAddresses(leaves, keys);
    assert WindowPart(keys, k, parts[k]);
    var p := GroupOfPart(leaves, keys, parts[k], k, i, j);
    var q := BatchOfJoined(parts, k, p);
    SameBatchShows(leaves, Joined(parts), q, i, j);
  }

  /**
   As written, the whole run ends in the serial state for all effects and all orders within sub-batches if and
   only if no transaction at a window boundary below the height declares a leaf, and no two transactions of
   one group of 100 of a window declare the same leaf.
   */
  lemma AsWrittenRunSerialExactly<K(!new)>(leaves: Deps<K>, parts: seq<seq<seq<nat>>>)
    requires IsWholeRun(AddressKeys(leaves), parts)
    ensures AlwaysSerial(leaves, Joined(parts)) <==> BoundariesAreFree(leaves) && WindowsAreFree(leaves, |parts|)
  {
    var keys := AddressKeys(leaves);
    KeysAreAddresses(leaves, keys);
    RunNeedsOneLeaf(leaves, keys, parts);
    if !BoundariesAreFree(leaves) {
      var num: nat :| 0 < num < |leaves| && !FreeAt(leaves, num);
      ExecutedAsOftenAsFetched(keys, parts, num);
      BoundaryShows(leaves, Joined(parts), num);
    } else if k: nat :| k < |parts| && !WindowIsFree(leaves, k) {
      var i: nat, j: nat :| i < j && Conflict(leaves, i, j) && SameGroup(k, i, j);
      GroupShows(leaves, keys, parts, k, i, j);
    } else {
      forall effect: (nat, Option<seq<nat>>) -> seq<nat>, order: seq<nat>, st: map<K, seq<nat>> | Linearizes(order, Joined(parts))
        ensures RunAll(leaves, effect, order, st) == RunAll(leaves, effect, TxNodes(|leaves|), st)
      {
        FreeRunIsSerial(leaves, effect, keys, parts, order, st);
      }
    }
  }
}
