/**
 The executer's whole run: each window is fetched with `Get`, whose inclusive bounds are 1000 apart, its
 graph is built and walked, and then the next window is fetched.
 */
module WholeRun {
  import opened Common
  import opened Core
  import opened Graphs
  import opened Walks
  import opened Construction
  import opened Executer
  import opened Serial
  import opened Shifts

  /** The number of sequenced transactions before the first one of window k. */
  function First(k: nat): nat {
    if k == 0 then 0 else 1000 * k - 1
  }

  /** The last transaction that window k fetches when there are `height`. */
  function Reach(k: nat, height: nat): nat {
    Min(1000 * k + 1000, height)
  }

  /** The rows of window k: transaction number lo + v of the sequence is its transaction v. */
  ghost predicate IsWindow<T>(txs: seq<T>, k: nat, rows: seq<T>, lo: nat) {
    && lo == First(k)
    && lo + |rows| == Reach(k, |txs|)
    && forall i :: 0 <= i < |rows| ==> rows[i] == txs[lo + i]
  }

  lemma FetchIsWindow<T>(txs: seq<T>, k: nat, rows: seq<T>, lo: nat)
    requires 1000 * k <= |txs| && lo == First(k) && rows == RowsInRange(txs, 1000 * k, 1000 * k + 1000)
    ensures IsWindow(txs, k, rows, lo)
  {
    var reach := Reach(k, |txs|);
    assert rows == txs[lo..reach];
  }

  /** Window k fetches the transaction with sequence number num. */
  predicate InWindow(k: nat, num: nat) {
    Fetches(Window(1000 * k, 1000 * k + 1000), num)
  }

  lemma InRows<T>(txs: seq<T>, k: nat, rows: seq<T>, lo: nat, num: nat)
    requires IsWindow(txs, k, rows, lo) && 0 < num <= |txs|
    ensures InWindow(k, num) <==> lo < num <= lo + |rows|
  {
  }

  /** What walking a window executes, with sequence numbers for nodes. */
  ghost predicate Walked<K>(rows: Deps<K>, lo: nat, part: seq<seq<nat>>) {
    exists log :: EndsWith(AllEdges(rows), log) && part == ShiftLog(log, lo)
  }

  lemma LogOf<K>(rows: Deps<K>, lo: nat, part: seq<seq<nat>>) returns (log: seq<seq<nat>>)
    requires Walked(rows, lo, part)
    ensures EndsWith(AllEdges(rows), log) && part == ShiftLog(log, lo)
  {
    log :| EndsWith(AllEdges(rows), log) && part == ShiftLog(log, lo);
  }

  /** Part k of a run is what window k executes. */
  ghost predicate WindowPart<K(!new)>(deps: Deps<K>, k: nat, part: seq<seq<nat>>) {
    exists rows, lo :: IsWindow(deps, k, rows, lo) && Walked(rows, lo, part)
  }

  lemma WindowOf<K(!new)>(deps: Deps<K>, k: nat, part: seq<seq<nat>>) returns (rows: Deps<K>, lo: nat)
    requires WindowPart(deps, k, part)
    ensures IsWindow(deps, k, rows, lo) && Walked(rows, lo, part)
  {
    rows, lo :| IsWindow(deps, k, rows, lo) && Walked(rows, lo, part);
  }

  function Joined(parts: seq<seq<seq<nat>>>): seq<seq<nat>> {
    if parts == [] then [] else Joined(parts[..|parts| - 1]) + parts[|parts| - 1]
  }

  /** The whole run: as many windows as it takes to reach the height. */
  ghost predicate IsWholeRun<K(!new)>(deps: Deps<K>, parts: seq<seq<seq<nat>>>) {
    Covers(|parts|, |deps|) && Parts(deps, parts)
  }

  ghost predicate Parts<K(!new)>(deps: Deps<K>, parts: seq<seq<seq<nat>>>) {
    forall k :: 0 <= k < |parts| ==> WindowPart(deps, k, parts[k])
  }

  predicate Covers(n: nat, height: nat) {
    height <= 1000 * n && (n > 0 ==> 1000 * (n - 1) < height)
  }

  lemma OneMorePart<K(!new)>(deps: Deps<K>, parts: seq<seq<seq<nat>>>, part: seq<seq<nat>>, more: seq<seq<seq<nat>>>)
    requires Parts(deps, parts) && WindowPart(deps, |parts|, part) && more == parts + [part]
    ensures Parts(deps, more)
  {
    forall k | 0 <= k < |more|
      ensures WindowPart(deps, k, more[k])
    {
      if k < |parts| {
        assert more[k] == parts[k];
      }
    }
  }

  lemma JoinOneMore(parts: seq<seq<seq<nat>>>, part: seq<seq<nat>>)
    ensures Joined(parts + [part]) == Joined(parts) + part
  {
    assert (parts + [part])[..|parts|] == parts;
  }

  lemma RowsAreDistinct<K>(deps: Deps<K>, k: nat, rows: Deps<K>, lo: nat)
    requires IsWindow(deps, k, rows, lo) && forall i :: 0 <= i < |deps| ==> NoDuplicates(deps[i])
    ensures forall i :: 0 <= i < |rows| ==> NoDuplicates(rows[i])
  {
    forall i | 0 <= i < |rows|
      ensures NoDuplicates(rows[i])
    {
      assert rows[i] == deps[lo + i];
    }
  }

  lemma IsPart<K(!new)>(deps: Deps<K>, k: nat, rows: Deps<K>, lo: nat, log: seq<seq<nat>>, part: seq<seq<nat>>)
    requires IsWindow(deps, k, rows, lo) && EndsWith(AllEdges(rows), log) && part == ShiftLog(log, lo)
    ensures WindowPart(deps, k, part)
  {
    assert Walked(rows, lo, part);
  }

  /** The fetch of one window. */
  method FetchWindow<T>(txs: seq<T>, i: nat, ghost k: nat) returns (rows: seq<T>, lo: nat)
    requires i == 1000 * k < |txs|
    ensures IsWindow(txs, k, rows, lo)
  {
    rows := RowsInRange(txs, i, i + 1000);
    lo := if i == 0 then 0 else i - 1;
    FetchIsWindow(txs, k, rows, lo);
  }

  /** One turn of the outer loop. */
  method ExecuteNext<K(==,!new)>(deps: Deps<K>, i: nat, ghost k: nat) returns (part: seq<seq<nat>>)
    requires forall i :: 0 <= i < |deps| ==> NoDuplicates(deps[i])
    requires i == 1000 * k < |deps|
    ensures WindowPart(deps, k, part)
  {
    var rows, lo := FetchWindow(deps, i, k);
    RowsAreDistinct(deps, k, rows, lo);
    var log := ExecuteWindow(rows);
    part := ShiftLog(log, lo);
    IsPart(deps, k, rows, lo, log, part);
  }

  /** The outer loop of the executer for a fixed height. */
  method ExecuteAll<K(==,!new)>(deps: Deps<K>) returns (executed: seq<seq<nat>>)
    requires forall i :: 0 <= i < |deps| ==> NoDuplicates(deps[i])
    ensures exists parts :: executed == Joined(parts) && IsWholeRun(deps, parts)
  {
    executed := [];
    ghost var parts: seq<seq<seq<nat>>> := [];
    var i := 0;
    while i < |deps|
      invariant i == 1000 * |parts| && executed == Joined(parts) && Parts(deps, parts)
      invariant |parts| > 0 ==> 1000 * (|parts| - 1) < |deps|
    {
      var part := ExecuteNext(deps, i, |parts|);
      OneMorePart(deps, parts, part, parts + [part]);
      JoinOneMore(parts, part);
      executed := executed + part;
      parts := parts + [part];
      i := i + 1000;
    }
    assert executed == Joined(parts) && IsWholeRun(deps, parts);
  }

  // ---------- One window ----------

  /** A window executes its transactions, and no others. */
  lemma WalkedRuns<K>(rows: Deps<K>, lo: nat, part: seq<seq<nat>>, num: nat)
    requires Walked(rows, lo, part)
    ensures Runs(part, num) <==> lo < num <= lo + |rows|
  {
    var log := LogOf(rows, lo, part);
    ShiftedRuns(log, lo, num);
    if num >= lo {
      LogRuns(rows, log, num - lo);
    }
  }

  lemma LogRuns<K>(rows: Deps<K>, log: seq<seq<nat>>, v: nat)
    requires EndsWith(AllEdges(rows), log)
    ensures Runs(log, v) <==> 0 < v <= |rows|
  {
    if 0 < v <= |rows| {
      EveryTxIsExecuted(rows, log, v - 1);
    } else {
      LogRunsNoOther(rows, log, v);
    }
  }

  lemma LogRunsNoOther<K>(rows: Deps<K>, log: seq<seq<nat>>, v: nat)
    requires EndsWith(AllEdges(rows), log)
    ensures Runs(log, v) ==> 0 < v <= |rows|
  {
    InFlat(log, v);
    if Runs(log, v) {
      OnlyTransactionsRun(rows, log, v);
    }
  }

  /** Each once, with at most one leaf each. */
  lemma WalkedRunsOnce<K>(rows: Deps<K>, lo: nat, part: seq<seq<nat>>, v: nat)
    requires Walked(rows, lo, part) && AtMostOneLeaf(rows) && 0 < v <= |rows|
    ensures Executions(part, v + lo) == 1
  {
    var log := LogOf(rows, lo, part);
    OneLeafRunsOnce(rows, log, v - 1);
    ShiftedExecutions(log, lo, v);
  }

  /** Conflicting ones end in order. */
  lemma WalkedInOrder<K>(rows: Deps<K>, lo: nat, part: seq<seq<nat>>, i: nat, j: nat, key: K)
    requires Walked(rows, lo, part) && DeclareBoth(rows, i, j, key)
    ensures EndsBefore(part, i + 1 + lo, j + 1 + lo)
  {
    var log := LogOf(rows, lo, part);
    LogInOrder(rows, log, i, j, i + 1, j + 1, key);
    ShiftedEndsBefore(log, lo, i + 1, j + 1);
  }

  lemma LogInOrder<K>(rows: Deps<K>, log: seq<seq<nat>>, i: nat, j: nat, u: nat, v: nat, key: K)
    requires EndsWith(AllEdges(rows), log) && DeclareBoth(rows, i, j, key) && u == i + 1 && v == j + 1
    ensures EndsBefore(log, u, v)
  {
    ConflictsEndInOrder(rows, log, i, j, key);
  }

  // ---------- How often each transaction is executed ----------

  lemma OneMoreWindow(n: nat, num: nat)
    ensures FetchCount(WindowList(n + 1), num) == FetchCount(WindowList(n), num) + if InWindow(n, num) then 1 else 0
  {
    assert WindowList(n + 1)[..n] == WindowList(n);
  }

  /** Part k executes num once if window k fetches it. */
  ghost predicate ExecutesOnce(part: seq<seq<nat>>, k: nat, num: nat) {
    Executions(part, num) == if InWindow(k, num) then 1 else 0
  }

  lemma RowsHaveOneLeaf<K>(deps: Deps<K>, k: nat, rows: Deps<K>, lo: nat)
    requires IsWindow(deps, k, rows, lo) && AtMostOneLeaf(deps)
    ensures AtMostOneLeaf(rows)
  {
    forall i | 0 <= i < |rows|
      ensures |rows[i]| <= 1
    {
      assert rows[i] == deps[lo + i];
    }
  }

  lemma PartExecutesOnce<K(!new)>(deps: Deps<K>, k: nat, part: seq<seq<nat>>, num: nat)
    requires WindowPart(deps, k, part) && AtMostOneLeaf(deps) && 0 < num <= |deps|
    ensures ExecutesOnce(part, k, num)
  {
    var rows, lo := WindowOf(deps, k, part);
    InRows(deps, k, rows, lo, num);
    if InWindow(k, num) {
      RowsHaveOneLeaf(deps, k, rows, lo);
      WalkedRunsOnce(rows, lo, part, num - lo);
    } else {
      WalkedRuns(rows, lo, part, num);
      ExecutedIfRuns(part, num);
    }
  }

  lemma {:induction false} ExecutionsOfParts(parts: seq<seq<seq<nat>>>, num: nat)
    requires forall k :: 0 <= k < |parts| ==> ExecutesOnce(parts[k], k, num)
    ensures Executions(Joined(parts), num) == FetchCount(WindowList(|parts|), num)
  {
    if parts != [] {
      var k := |parts| - 1;
      ExecutionsOfParts(parts[..k], num);
      assert ExecutesOnce(parts[k], k, num);
      ExecutionsAppend(Joined(parts[..k]), parts[k], num);
      OneMoreWindow(k, num);
    }
  }

  /** With at most one leaf each, a transaction is executed as often as it is fetched. */
  lemma ExecutedAsOftenAsFetched<K(!new)>(deps: Deps<K>, parts: seq<seq<seq<nat>>>, num: nat)
    requires AtMostOneLeaf(deps) && IsWholeRun(deps, parts) && 0 < num <= |deps|
    ensures Executions(Joined(parts), num) == if num % 1000 == 0 && num < |deps| then 2 else 1
  {
    forall k | 0 <= k < |parts|
      ensures ExecutesOnce(parts[k], k, num)
    {
      assert WindowPart(deps, k, parts[k]);
      PartExecutesOnce(deps, k, parts[k], num);
    }
    ExecutionsOfParts(parts, num);
    FetchCountOfFirst(|parts|, num);
  }

  /** Executions of num in part k. */
  function RunsInParts(parts: seq<seq<seq<nat>>>, num: nat): nat -> nat {
    (k: nat) => if k < |parts| then Executions(parts[k], num) else 0
  }

  lemma SumsAgree(f: nat -> nat, g: nat -> nat, n: nat)
    requires forall k :: 0 <= k < n ==> f(k) == g(k)
    ensures Sum(f, n) == Sum(g, n)
  {
    if n > 0 {
      SumsAgree(f, g, n - 1);
      assert f(n - 1) == g(n - 1);
    }
  }

  lemma {:induction false} ExecutionsOfJoined(parts: seq<seq<seq<nat>>>, num: nat)
    ensures Executions(Joined(parts), num) == Sum(RunsInParts(parts, num), |parts|)
  {
    if parts != [] {
      var n := |parts| - 1;
      var before := parts[..n];
      ExecutionsOfJoined(before, num);
      ExecutionsAppend(Joined(before), parts[n], num);
      forall k | 0 <= k < n
        ensures RunsInParts(before, num)(k) == RunsInParts(parts, num)(k)
      {
        assert before[k] == parts[k];
      }
      SumsAgree(RunsInParts(before, num), RunsInParts(parts, num), n);
    }
  }

  /** What transaction v of a window is executed: once without leaves, else as often as what it depends on. */
  function RowRuns<K(==)>(rows: Deps<K>, log: seq<seq<nat>>, v: nat): nat
    requires 0 < v <= |rows|
  {
    if rows[v - 1] == [] then 1 else RunsOfDependencies(rows, log, v - 1, |rows[v - 1]|)
  }

  ghost predicate AddsUp<K>(rows: Deps<K>, lo: nat, log: seq<seq<nat>>, part: seq<seq<nat>>, num: nat) {
    && EndsWith(AllEdges(rows), log) && part == ShiftLog(log, lo)
    && lo < num <= lo + |rows| && Executions(part, num) == RowRuns(rows, log, num - lo)
  }

  lemma WalkedAddsUp<K>(rows: Deps<K>, lo: nat, part: seq<seq<nat>>, num: nat) returns (log: seq<seq<nat>>)
    requires Walked(rows, lo, part) && lo < num <= lo + |rows|
    ensures AddsUp(rows, lo, log, part, num)
  {
    log := LogOf(rows, lo, part);
    LogAddsUp(rows, lo, log, part, num, num - lo);
  }

  lemma LogAddsUp<K>(rows: Deps<K>, lo: nat, log: seq<seq<nat>>, part: seq<seq<nat>>, num: nat, v: nat)
    requires EndsWith(AllEdges(rows), log) && part == ShiftLog(log, lo)
    requires 0 < v <= |rows| && num == v + lo
    ensures AddsUp(rows, lo, log, part, num)
  {
    RowRunsAddUp(rows, log, v);
    ShiftedExecutions(log, lo, v);
  }

  lemma RowRunsAddUp<K>(rows: Deps<K>, log: seq<seq<nat>>, v: nat)
    requires EndsWith(AllEdges(rows), log) && 0 < v <= |rows|
    ensures Executions(log, v) == RowRuns(rows, log, v)
  {
    ExecutionsAddUp(rows, log, v - 1);
  }

  lemma WalkedRunsOften<K>(rows: Deps<K>, lo: nat, part: seq<seq<nat>>, v: nat)
    requires Walked(rows, lo, part) && 0 < v <= |rows|
    ensures Executions(part, v + lo) >= 1 && Executions(part, v + lo) >= |rows[v - 1]|
  {
    var log := LogOf(rows, lo, part);
    LogRunsOften(rows, log, v);
    ShiftedExecutions(log, lo, v);
  }

  lemma LogRunsOften<K>(rows: Deps<K>, log: seq<seq<nat>>, v: nat)
    requires EndsWith(AllEdges(rows), log) && 0 < v <= |rows|
    ensures Executions(log, v) >= 1 && Executions(log, v) >= |rows[v - 1]|
  {
    EveryTxIsExecuted(rows, log, v - 1);
    OneRunPerLeaf(rows, log, v - 1);
  }

  /**
   Part k executes num as often as what its leaves depend on within window k, if the window fetches it, and
   never if not.
   */
  ghost predicate RunsAddUp<K(!new)>(deps: Deps<K>, k: nat, part: seq<seq<nat>>, num: nat) {
    if InWindow(k, num) then
      exists rows, lo, log :: IsWindow(deps, k, rows, lo) && AddsUp(rows, lo, log, part, num)
    else Executions(part, num) == 0
  }

  lemma PartRunsAddUp<K(!new)>(deps: Deps<K>, k: nat, part: seq<seq<nat>>, num: nat)
    requires WindowPart(deps, k, part) && 0 < num <= |deps|
    ensures RunsAddUp(deps, k, part, num)
  {
    var rows, lo := WindowOf(deps, k, part);
    InRows(deps, k, rows, lo, num);
    if InWindow(k, num) {
      var log := WalkedAddsUp(rows, lo, part, num);
    } else {
      WalkedRuns(rows, lo, part, num);
      ExecutedIfRuns(part, num);
    }
  }

  /**
   Over the whole run a transaction is executed as often as in the windows that fetch it taken together, and
   in each of these as often as what its leaves depend on there.
   */
  lemma ExecutionsOverWindows<K(!new)>(deps: Deps<K>, parts: seq<seq<seq<nat>>>, num: nat)
    requires IsWholeRun(deps, parts) && 0 < num <= |deps|
    ensures Executions(Joined(parts), num) == Sum(RunsInParts(parts, num), |parts|)
    ensures forall k :: 0 <= k < |parts| ==> RunsAddUp(deps, k, parts[k], num)
  {
    ExecutionsOfJoined(parts, num);
    forall k | 0 <= k < |parts|
      ensures RunsAddUp(deps, k, parts[k], num)
    {
      assert WindowPart(deps, k, parts[k]);
      PartRunsAddUp(deps, k, parts[k], num);
    }
  }

  lemma {:induction false} SumAtLeastTwo(f: nat -> nat, n: nat, a: nat, b: nat)
    requires a < b < n
    ensures Sum(f, n) >= f(a) + f(b)
    decreases n
  {
    if b < n - 1 {
      SumAtLeastTwo(f, n - 1, a, b);
    } else {
      SumAtLeastOne(f, n - 1, a);
    }
  }

  lemma {:induction false} SumAtLeastOne(f: nat -> nat, n: nat, a: nat)
    requires a < n
    ensures Sum(f, n) >= f(a)
    decreases n
  {
    if a < n - 1 {
      SumAtLeastOne(f, n - 1, a);
    }
  }

  /** A transaction at a boundary is executed more than once, whatever leaves it declares. */
  lemma BoundaryRunsTwice<K(!new)>(deps: Deps<K>, parts: seq<seq<seq<nat>>>, num: nat)
    requires IsWholeRun(deps, parts) && num == 1000 < |deps|
    ensures Executions(Joined(parts), num) >= 2
  {
    FetchedInPart(deps, parts, 0, num);
    FetchedInPart(deps, parts, 1, num);
    ExecutionsOfJoined(parts, num);
    SumAtLeastTwo(RunsInParts(parts, num), |parts|, 0, 1);
  }

  /** A window that fetches a transaction executes it, and at least once for each leaf. */
  lemma FetchedInPart<K(!new)>(deps: Deps<K>, parts: seq<seq<seq<nat>>>, k: nat, num: nat)
    requires IsWholeRun(deps, parts) && k < |parts| && 0 < num <= |deps| && InWindow(k, num)
    ensures RunsInParts(parts, num)(k) >= 1 && RunsInParts(parts, num)(k) >= |deps[num - 1]|
  {
    assert WindowPart(deps, k, parts[k]);
    var rows, lo := WindowOf(deps, k, parts[k]);
    InRows(deps, k, rows, lo, num);
    WalkedRunsOften(rows, lo, parts[k], num - lo);
    assert rows[num - lo - 1] == deps[num - 1];
  }

  lemma LeavesRunOften<K(!new)>(deps: Deps<K>, parts: seq<seq<seq<nat>>>, num: nat)
    requires IsWholeRun(deps, parts) && 0 < num <= |deps| <= 1000
    ensures Executions(Joined(parts), num) >= |deps[num - 1]|
  {
    FetchedInPart(deps, parts, 0, num);
    ExecutionsOfJoined(parts, num);
    SumAtLeastOne(RunsInParts(parts, num), |parts|, 0);
  }

  /**
   Over the whole run every transaction is executed exactly once if and only if there is no boundary below
   the height and each transaction declares at most one leaf.
   */
  lemma RunExecutesOnceExactly<K(!new)>(deps: Deps<K>, parts: seq<seq<seq<nat>>>)
    requires IsWholeRun(deps, parts)
    ensures (forall num :: 0 < num <= |deps| ==> RunsOnce(parts, num)) <==> |deps| <= 1000 && AtMostOneLeaf(deps)
  {
    if |deps| <= 1000 && AtMostOneLeaf(deps) {
      forall num | 0 < num <= |deps|
        ensures RunsOnce(parts, num)
      {
        RunsOnceWithoutBoundary(deps, parts, num);
      }
    } else {
      var num := RunsMoreThanOnce(deps, parts);
      assert !RunsOnce(parts, num);
    }
  }

  lemma RunsOnceWithoutBoundary<K(!new)>(deps: Deps<K>, parts: seq<seq<seq<nat>>>, num: nat)
    requires IsWholeRun(deps, parts) && |deps| <= 1000 && AtMostOneLeaf(deps) && 0 < num <= |deps|
    ensures RunsOnce(parts, num)
  {
    ExecutedAsOftenAsFetched(deps, parts, num);
  }

  ghost predicate RunsOnce(parts: seq<seq<seq<nat>>>, num: nat) {
    Executions(Joined(parts), num) == 1
  }

  lemma RunsMoreThanOnce<K(!new)>(deps: Deps<K>, parts: seq<seq<seq<nat>>>) returns (num: nat)
    requires IsWholeRun(deps, parts) && (|deps| > 1000 || !AtMostOneLeaf(deps))
    ensures 0 < num <= |deps| && Executions(Joined(parts), num) > 1
  {
    if |deps| > 1000 {
      num := 1000;
      BoundaryRunsTwice(deps, parts, num);
    } else {
      var i: nat :| i < |deps| && |deps[i]| > 1;
      num := i + 1;
      LeavesRunOften(deps, parts, num);
    }
  }

  // ---------- Order of conflicting transactions ----------

  /** Part k executes num if and only if window k fetches it. */
  ghost predicate ExecutesFetched(part: seq<seq<nat>>, k: nat, num: nat) {
    Runs(part, num) <==> InWindow(k, num)
  }

  lemma PartExecutesFetched<K>(deps: Deps<K>, k: nat, rows: Deps<K>, lo: nat, part: seq<seq<nat>>, num: nat)
    requires IsWindow(deps, k, rows, lo) && Walked(rows, lo, part) && 0 < num <= |deps|
    ensures ExecutesFetched(part, k, num)
  {
    InRows(deps, k, rows, lo, num);
    WalkedRuns(rows, lo, part, num);
  }

  lemma {:induction false} FetchedRuns(parts: seq<seq<seq<nat>>>, num: nat)
    requires num > 0 && forall k :: 0 <= k < |parts| ==> ExecutesFetched(parts[k], k, num)
    ensures Runs(Joined(parts), num) <==> num <= 1000 * |parts|
  {
    if parts != [] {
      var k := |parts| - 1;
      FetchedRuns(parts[..k], num);
      assert ExecutesFetched(parts[k], k, num);
      RunsInEither(Joined(parts[..k]), parts[k], num);
    }
  }

  lemma BothInRows<K>(deps: Deps<K>, k: nat, rows: Deps<K>, lo: nat, i: nat, j: nat, key: K)
    requires IsWindow(deps, k, rows, lo) && DeclareBoth(deps, i + lo, j + lo, key) && j < |rows|
    ensures DeclareBoth(rows, i, j, key)
  {
    assert rows[i] == deps[lo + i] && rows[j] == deps[lo + j];
  }

  /** In part k the earlier of two transactions ends first, if window k fetches both. */
  ghost predicate EndsFirst(part: seq<seq<nat>>, k: nat, u: nat, v: nat) {
    InWindow(k, u) && InWindow(k, v) ==> EndsBefore(part, u, v)
  }

  lemma PartEndsFirst<K>(deps: Deps<K>, k: nat, rows: Deps<K>, lo: nat, part: seq<seq<nat>>, i: nat, j: nat, key: K)
    requires IsWindow(deps, k, rows, lo) && Walked(rows, lo, part) && DeclareBoth(deps, i, j, key)
    ensures EndsFirst(part, k, i + 1, j + 1)
  {
    InRows(deps, k, rows, lo, i + 1);
    InRows(deps, k, rows, lo, j + 1);
    if InWindow(k, i + 1) && InWindow(k, j + 1) {
      BothInRows(deps, k, rows, lo, i - lo, j - lo, key);
      WalkedInOrder(rows, lo, part, i - lo, j - lo, key);
    }
  }

  /** What is needed of a part to order two transactions. */
  ghost predicate Ordered(part: seq<seq<nat>>, k: nat, u: nat, v: nat) {
    ExecutesFetched(part, k, u) && ExecutesFetched(part, k, v) && EndsFirst(part, k, u, v)
  }

  lemma AllExecuteFetched<K(!new)>(deps: Deps<K>, parts: seq<seq<seq<nat>>>, num: nat)
    requires Parts(deps, parts) && 0 < num <= |deps|
    ensures forall k :: 0 <= k < |parts| ==> ExecutesFetched(parts[k], k, num)
  {
    forall k | 0 <= k < |parts|
      ensures ExecutesFetched(parts[k], k, num)
    {
      var rows, lo := WindowOf(deps, k, parts[k]);
      PartExecutesFetched(deps, k, rows, lo, parts[k], num);
    }
  }

  lemma AllEndFirst<K(!new)>(deps: Deps<K>, parts: seq<seq<seq<nat>>>, i: nat, j: nat, key: K)
    requires Parts(deps, parts) && DeclareBoth(deps, i, j, key)
    ensures forall k :: 0 <= k < |parts| ==> EndsFirst(parts[k], k, i + 1, j + 1)
  {
    forall k | 0 <= k < |parts|
      ensures EndsFirst(parts[k], k, i + 1, j + 1)
    {
      var rows, lo := WindowOf(deps, k, parts[k]);
      PartEndsFirst(deps, k, rows, lo, parts[k], i, j, key);
    }
  }

  lemma AllOrdered(parts: seq<seq<seq<nat>>>, u: nat, v: nat)
    requires forall k :: 0 <= k < |parts| ==> ExecutesFetched(parts[k], k, u)
    requires forall k :: 0 <= k < |parts| ==> ExecutesFetched(parts[k], k, v)
    requires forall k :: 0 <= k < |parts| ==> EndsFirst(parts[k], k, u, v)
    ensures forall k :: 0 <= k < |parts| ==> Ordered(parts[k], k, u, v)
  {
  }

  lemma PartsAreOrdered<K(!new)>(deps: Deps<K>, parts: seq<seq<seq<nat>>>, i: nat, j: nat, key: K)
    requires Parts(deps, parts) && DeclareBoth(deps, i, j, key)
    ensures forall k :: 0 <= k < |parts| ==> Ordered(parts[k], k, i + 1, j + 1)
  {
    AllExecuteFetched(deps, parts, i + 1);
    AllExecuteFetched(deps, parts, j + 1);
    AllEndFirst(deps, parts, i, j, key);
    AllOrdered(parts, i + 1, j + 1);
  }

  lemma {:induction false} OrderAcrossParts(parts: seq<seq<seq<nat>>>, u: nat, v: nat)
    requires 0 < u < v <= 1000 * |parts|
    requires forall k :: 0 <= k < |parts| ==> Ordered(parts[k], k, u, v)
    ensures EndsBefore(Joined(parts), u, v)
  {
    var k := |parts| - 1;
    var before, part := parts[..k], parts[k];
    assert Ordered(part, k, u, v);
    forall m | 0 <= m < |before|
      ensures ExecutesFetched(before[m], m, u)
    {
      assert Ordered(parts[m], m, u, v);
    }
    FetchedRuns(before, u);
    if v <= 1000 * k {
      OrderAcrossParts(before, u, v);
    }
    EndsBeforeAppend(Joined(before), part, u, v);
  }

  /** Of two transactions that declare a key the earlier one ends before the later one, across windows too. */
  lemma ConflictsEndInOrderAcrossWindows<K(!new)>(deps: Deps<K>, parts: seq<seq<seq<nat>>>, i: nat, j: nat, key: K)
    requires IsWholeRun(deps, parts) && DeclareBoth(deps, i, j, key)
    ensures EndsBefore(Joined(parts), i + 1, j + 1)
  {
    PartsAreOrdered(deps, parts, i, j, key);
    OrderAcrossParts(parts, i + 1, j + 1);
  }
}
