/** Logs of windows with sequence numbers for nodes, and logs one after the other. */
module Shifts {
  import opened Graphs
  import opened Walks

  function Shift(s: seq<nat>, lo: nat): seq<nat> {
    if s == [] then [] else Shift(s[..|s| - 1], lo) + [s[|s| - 1] + lo]
  }

  function ShiftLog(log: seq<seq<nat>>, lo: nat): seq<seq<nat>> {
    if log == [] then [] else ShiftLog(log[..|log| - 1], lo) + [Shift(log[|log| - 1], lo)]
  }

  lemma {:induction false} ShiftLength(s: seq<nat>, lo: nat)
    ensures |Shift(s, lo)| == |s|
  {
    if s != [] {
      ShiftLength(s[..|s| - 1], lo);
    }
  }

  lemma {:induction false} ShiftLogLength(log: seq<seq<nat>>, lo: nat)
    ensures |ShiftLog(log, lo)| == |log|
  {
    if log != [] {
      ShiftLogLength(log[..|log| - 1], lo);
    }
  }

  lemma {:induction false} ShiftLogAt(log: seq<seq<nat>>, lo: nat, p: nat)
    requires p < |log|
    ensures |ShiftLog(log, lo)| == |log| && ShiftLog(log, lo)[p] == Shift(log[p], lo)
  {
    if p < |log| - 1 {
      ShiftLogAt(log[..|log| - 1], lo, p);
    } else {
      ShiftLogLength(log[..|log| - 1], lo);
    }
  }

  lemma {:induction false} InShift(s: seq<nat>, lo: nat, v: nat)
    ensures v in Shift(s, lo) <==> v >= lo && v - lo in s
  {
    if s != [] {
      var before, last := s[..|s| - 1], s[|s| - 1];
      InShift(before, lo, v);
      assert s == before + [last];
      assert v - lo in s <==> v - lo in before || v - lo == last;
    }
  }

  /** How often v occurs. */
  function Count(s: seq<nat>, v: nat): nat {
    if s == [] then 0 else Count(s[..|s| - 1], v) + if s[|s| - 1] == v then 1 else 0
  }

  lemma {:induction false} CountIsMultiplicity(s: seq<nat>, v: nat)
    ensures Count(s, v) == multiset(s)[v]
  {
    if s != [] {
      var before, last := s[..|s| - 1], s[|s| - 1];
      CountIsMultiplicity(before, v);
      CountOneElement(before, last, v);
      assert s == before + [last];
    }
  }

  lemma CountOneMoreElement(s: seq<nat>, x: nat, v: nat)
    ensures Count(s + [x], v) == Count(s, v) + if x == v then 1 else 0
  {
    assert (s + [x])[..|s|] == s;
  }

  lemma {:induction false} CountShifted(s: seq<nat>, lo: nat, v: nat)
    ensures Count(Shift(s, lo), v + lo) == Count(s, v)
  {
    if s != [] {
      var before, last := s[..|s| - 1], s[|s| - 1];
      CountShifted(before, lo, v);
      CountOneMoreElement(Shift(before, lo), last + lo, v + lo);
    }
  }

  lemma CountInShift(s: seq<nat>, lo: nat, v: nat)
    ensures multiset(Shift(s, lo))[v + lo] == multiset(s)[v]
  {
    CountShifted(s, lo, v);
    CountIsMultiplicity(s, v);
    CountIsMultiplicity(Shift(s, lo), v + lo);
  }

  lemma {:induction false} ShiftAppend(a: seq<nat>, b: seq<nat>, lo: nat)
    ensures Shift(a + b, lo) == Shift(a, lo) + Shift(b, lo)
  {
    if b == [] {
      assert a + b == a;
    } else {
      ShiftAppend(a, b[..|b| - 1], lo);
      assert (a + b)[..|a + b| - 1] == a + b[..|b| - 1];
    }
  }

  lemma {:induction false} FlatOfShifted(log: seq<seq<nat>>, lo: nat)
    ensures Flat(ShiftLog(log, lo)) == Shift(Flat(log), lo)
  {
    if log != [] {
      var before, last := log[..|log| - 1], log[|log| - 1];
      FlatOfShifted(before, lo);
      ShiftAppend(Flat(before), last, lo);
      FlatOneMore(ShiftLog(before, lo), Shift(last, lo));
    }
  }

  lemma ShiftedExecutions(log: seq<seq<nat>>, lo: nat, v: nat)
    ensures Executions(ShiftLog(log, lo), v + lo) == Executions(log, v)
  {
    FlatOfShifted(log, lo);
    CountInShift(Flat(log), lo, v);
  }

  lemma RunsInBatch(log: seq<seq<nat>>, lo: nat, p: nat, v: nat)
    requires p < |log|
    ensures |ShiftLog(log, lo)| == |log|
    ensures v in ShiftLog(log, lo)[p] <==> v >= lo && v - lo in log[p]
  {
    ShiftLogAt(log, lo, p);
    InShift(log[p], lo, v);
  }

  lemma ShiftedRuns(log: seq<seq<nat>>, lo: nat, v: nat)
    ensures Runs(ShiftLog(log, lo), v) <==> v >= lo && Runs(log, v - lo)
  {
    var all := ShiftLog(log, lo);
    ShiftLogLength(log, lo);
    if Runs(all, v) {
      var p :| 0 <= p < |all| && v in all[p];
      RunsInBatch(log, lo, p, v);
    }
    if v >= lo && Runs(log, v - lo) {
      var p :| 0 <= p < |log| && v - lo in log[p];
      RunsInBatch(log, lo, p, v);
    }
  }

  lemma ShiftedLastRun(log: seq<seq<nat>>, lo: nat, v: nat)
    requires Runs(log, v)
    ensures Runs(ShiftLog(log, lo), v + lo) && LastRun(ShiftLog(log, lo), v + lo) == LastRun(log, v)
  {
    ShiftedRuns(log, lo, v + lo);
    ShiftLogLength(log, lo);
    RunsInBatch(log, lo, LastRun(log, v), v + lo);
    RunsInBatch(log, lo, LastRun(ShiftLog(log, lo), v + lo), v + lo);
  }

  lemma ExecutionsAppend(a: seq<seq<nat>>, b: seq<seq<nat>>, v: nat)
    ensures Executions(a + b, v) == Executions(a, v) + Executions(b, v)
  {
    FlatAppend(a, b);
  }

  lemma ExecutedIfRuns(log: seq<seq<nat>>, v: nat)
    ensures Executions(log, v) > 0 <==> Runs(log, v)
  {
    InFlat(log, v);
    assert v in Flat(log) <==> v in multiset(Flat(log));
  }

  lemma ShiftedEndsBefore(log: seq<seq<nat>>, lo: nat, u: nat, v: nat)
    requires EndsBefore(log, u, v)
    ensures EndsBefore(ShiftLog(log, lo), u + lo, v + lo)
  {
    ShiftedLastRun(log, lo, u);
    ShiftedLastRun(log, lo, v);
  }

  // ---------- One log after another ----------

  lemma RunsInEither(a: seq<seq<nat>>, b: seq<seq<nat>>, v: nat)
    ensures Runs(a + b, v) <==> Runs(a, v) || Runs(b, v)
  {
    ExecutedIfRuns(a, v);
    ExecutedIfRuns(b, v);
    ExecutedIfRuns(a + b, v);
    ExecutionsAppend(a, b, v);
  }

  lemma LastRunInSecond(a: seq<seq<nat>>, b: seq<seq<nat>>, v: nat)
    requires Runs(b, v)
    ensures Runs(a + b, v) && LastRun(a + b, v) == |a| + LastRun(b, v)
  {
    RunsInEither(a, b, v);
    var p, q := LastRun(b, v), LastRun(a + b, v);
    assert (a + b)[|a| + p] == b[p];
    assert q >= |a| + p;
    assert (a + b)[q] == b[q - |a|];
  }

  lemma LastRunInFirst(a: seq<seq<nat>>, b: seq<seq<nat>>, v: nat)
    requires Runs(a, v) && !Runs(b, v)
    ensures Runs(a + b, v) && LastRun(a + b, v) == LastRun(a, v)
  {
    RunsInEither(a, b, v);
    var p, q := LastRun(a, v), LastRun(a + b, v);
    assert (a + b)[p] == a[p];
    if q >= |a| {
      assert false;
    }
  }

  lemma EndsBeforeAppend(a: seq<seq<nat>>, b: seq<seq<nat>>, u: nat, v: nat)
    requires Runs(a, u) || Runs(b, u)
    requires Runs(b, u) ==> EndsBefore(b, u, v)
    requires !Runs(b, u) && !Runs(b, v) ==> EndsBefore(a, u, v)
    ensures EndsBefore(a + b, u, v)
  {
    if Runs(b, u) {
      LastRunInSecond(a, b, u);
      LastRunInSecond(a, b, v);
    } else {
      LastRunInFirst(a, b, u);
      if Runs(b, v) {
        LastRunInSecond(a, b, v);
      } else {
        LastRunInFirst(a, b, v);
      }
    }
  }
}
