/**
  The data the scheduler works on: process records, the schedule entries it
  emits, and the bookkeeping functions (work done, remaining time, readiness)
  in terms of which every policy's behaviour is stated.
 */
module Processes {

  /** A validated input record: process `pid` becomes eligible at `arrival`
      and needs `burst` units of CPU time. */
  datatype Process = Process(pid: int, arrival: int, burst: int)

  /** One row of the schedule handed to the caller: `pid` held the CPU over [start, end). */
  datatype Entry = Entry(pid: int, start: int, end: int)

  /** A schedule row as the simulation produces it. `idx` is the position of
      the process record in the input sequence, i.e. the identity of the record
      whose `remainingTime` the simulation decrements. */
  datatype Slice = Slice(idx: nat, start: int, end: int)

  function Length(s: Slice): int {
    s.end - s.start
  }

  /** Every process needs some CPU time; without this SJF and SRTF never finish. */
  predicate PositiveBursts(ps: seq<Process>) {
    forall i :: 0 <= i < |ps| ==> ps[i].burst > 0
  }

  /** No two records share a pid (schedule rows are matched to processes by pid). */
  predicate DistinctPids(ps: seq<Process>) {
    forall i, j :: 0 <= i < j < |ps| ==> ps[i].pid != ps[j].pid
  }

  /** The initial `remainingTime` of every record: its burst. */
  function Bursts(ps: seq<Process>): (r: seq<int>)
    ensures |r| == |ps|
    ensures forall i :: 0 <= i < |ps| ==> r[i] == ps[i].burst
  {
    seq(|ps|, i requires 0 <= i < |ps| => ps[i].burst)
  }

  function Sum(s: seq<int>): int {
    if s == [] then 0 else Sum(s[..|s| - 1]) + s[|s| - 1]
  }

  function TotalBurst(ps: seq<Process>): int {
    Sum(Bursts(ps))
  }

  /** The latest arrival time (0 for no processes): no process is still to arrive after it. */
  function MaxArrival(ps: seq<Process>): (r: int)
    ensures forall i :: 0 <= i < |ps| ==> ps[i].arrival <= r
  {
    if ps == [] then 0
    else
      var rest := MaxArrival(ps[1..]);
      if ps[0].arrival > rest then ps[0].arrival else rest
  }

  /** Number of finished records in a `remainingTime` working copy. */
  function CountZeros(rem: seq<int>): nat {
    if rem == [] then 0 else CountZeros(rem[..|rem| - 1]) + (if rem[|rem| - 1] == 0 then 1 else 0)
  }

  predicate IndicesIn(out: seq<Slice>, n: nat) {
    forall k :: 0 <= k < |out| ==> out[k].idx < n
  }

  /** CPU time the schedule `out` has given to record `i`. */
  function Work(out: seq<Slice>, i: int): int {
    if out == [] then 0
    else Work(out[..|out| - 1], i) + (if out[|out| - 1].idx == i then Length(out[|out| - 1]) else 0)
  }

  /** Number of schedule rows of record `i`. */
  function Count(out: seq<Slice>, i: int): nat {
    if out == [] then 0
    else Count(out[..|out| - 1], i) + (if out[|out| - 1].idx == i then 1 else 0)
  }

  /** The time the CPU became free after `out`; the clock starts at 0. */
  function PrevEnd(out: seq<Slice>): int {
    if out == [] then 0 else out[|out| - 1].end
  }

  /** `remainingTime` of record `j` once the rows `out` have run. */
  function Remaining(ps: seq<Process>, out: seq<Slice>, j: int): int
    requires 0 <= j < |ps|
  {
    ps[j].burst - Work(out, j)
  }

  /** Record `j` is in the `available` list at clock `t`: it has arrived and has work left. */
  predicate ReadyAt(ps: seq<Process>, out: seq<Slice>, t: int, j: int) {
    0 <= j < |ps| && ps[j].arrival <= t && Remaining(ps, out, j) > 0
  }

  /** The `available` filter over a `remainingTime` working copy at clock `time`. */
  function Available(ps: seq<Process>, rem: seq<int>, time: int): (r: seq<bool>)
    requires |rem| == |ps|
    ensures |r| == |ps|
    ensures forall i :: 0 <= i < |ps| ==> (r[i] <==> ps[i].arrival <= time && rem[i] > 0)
  {
    seq(|ps|, i requires 0 <= i < |ps| => ps[i].arrival <= time && rem[i] > 0)
  }

  /** Every record got exactly its burst. */
  predicate Complete(ps: seq<Process>, out: seq<Slice>) {
    forall i :: 0 <= i < |ps| ==> Work(out, i) == ps[i].burst
  }

  /** Rows are non-empty, start no earlier than the clock's start, and each
      begins no earlier than the previous one ended. */
  predicate Chained(out: seq<Slice>) {
    && (forall k :: 0 <= k < |out| ==> out[k].start < out[k].end)
    && (|out| > 0 ==> out[0].start >= 0)
    && (forall k :: 0 < k < |out| ==> out[k - 1].end <= out[k].start)
  }

  /** Rows follow each other without gaps, from time 0. */
  predicate BackToBack(out: seq<Slice>) {
    && (|out| > 0 ==> out[0].start == 0)
    && (forall k :: 0 < k < |out| ==> out[k - 1].end == out[k].start)
  }

  /** The schedule as the caller sees it: each row names its record's pid. */
  function ToEntries(ps: seq<Process>, out: seq<Slice>): (r: seq<Entry>)
    requires IndicesIn(out, |ps|)
    ensures |r| == |out|
    ensures forall k :: 0 <= k < |out| ==>
              r[k] == Entry(ps[out[k].idx].pid, out[k].start, out[k].end)
  {
    seq(|out|, k requires 0 <= k < |out| => Entry(ps[out[k].idx].pid, out[k].start, out[k].end))
  }

  // ---------------------------------------------------------------------------
  // Facts about the bookkeeping functions
  // ---------------------------------------------------------------------------

  lemma WorkAppend(out: seq<Slice>, s: Slice, i: int)
    ensures Work(out + [s], i) == Work(out, i) + (if s.idx == i then Length(s) else 0)
    ensures Count(out + [s], i) == Count(out, i) + (if s.idx == i then 1 else 0)
  {
    assert (out + [s])[..|out|] == out;
  }

  lemma {:induction false} WorkConcat(a: seq<Slice>, b: seq<Slice>, i: int)
    ensures Work(a + b, i) == Work(a, i) + Work(b, i)
    ensures Count(a + b, i) == Count(a, i) + Count(b, i)
    decreases |b|
  {
    if b == [] {
      assert a + b == a;
    } else {
      var b' := b[..|b| - 1];
      var s := b[|b| - 1];
      assert b == b' + [s];
      assert a + b == (a + b') + [s];
      WorkConcat(a, b', i);
      WorkAppend(a + b', s, i);
      WorkAppend(b', s, i);
    }
  }

  /** A record that received CPU time has a row in the schedule. */
  lemma {:induction false} WorkedHasSlice(out: seq<Slice>, i: int)
    requires Work(out, i) != 0
    ensures exists k :: 0 <= k < |out| && out[k].idx == i
  {
    if out == [] {
    } else {
      var pre := out[..|out| - 1];
      if out[|out| - 1].idx != i {
        WorkedHasSlice(pre, i);
        var k :| 0 <= k < |pre| && pre[k].idx == i;
        assert out[k] == pre[k];
      }
    }
  }

  /** A record without rows received no CPU time. */
  lemma {:induction false} NoRowNoWork(out: seq<Slice>, i: int)
    requires forall k :: 0 <= k < |out| ==> out[k].idx != i
    ensures Work(out, i) == 0 && Count(out, i) == 0
  {
    if out != [] {
      var pre := out[..|out| - 1];
      assert forall k :: 0 <= k < |pre| ==> pre[k] == out[k];
      NoRowNoWork(pre, i);
    }
  }

  /** With non-empty rows, a record with no CPU time has no row. */
  lemma {:induction false} UnworkedHasNoSlice(out: seq<Slice>, i: int)
    requires forall k :: 0 <= k < |out| ==> out[k].start < out[k].end
    requires Work(out, i) == 0
    ensures forall k :: 0 <= k < |out| ==> out[k].idx != i
  {
    if out != [] {
      var pre := out[..|out| - 1];
      WorkNonNegative(pre, i);
      UnworkedHasNoSlice(pre, i);
      forall k | 0 <= k < |out| ensures out[k].idx != i {
        if k < |pre| {
          assert out[k] == pre[k];
        }
      }
    }
  }

  lemma {:induction false} WorkNonNegative(out: seq<Slice>, i: int)
    requires forall k :: 0 <= k < |out| ==> out[k].start < out[k].end
    ensures Work(out, i) >= 0
    ensures Work(out, i) >= Count(out, i)
  {
    if out != [] {
      var pre := out[..|out| - 1];
      assert forall k :: 0 <= k < |pre| ==> pre[k] == out[k];
      WorkNonNegative(pre, i);
    }
  }

  /** In a chained schedule no row starts before time 0. */
  lemma ChainedStartsNonNegative(out: seq<Slice>)
    requires Chained(out)
    ensures forall k :: 0 <= k < |out| ==> out[k].start >= 0
  {
    forall k | 0 < k < |out| ensures out[k].start >= 0 {
      ChainedNoOverlap(out, 0, k);
    }
  }

  /** In a chained schedule a later row never starts before an earlier one ends. */
  lemma {:induction false} ChainedNoOverlap(out: seq<Slice>, j: int, k: int)
    requires Chained(out)
    requires 0 <= j < k < |out|
    ensures out[j].end <= out[k].start
    decreases k - j
  {
    if j + 1 < k {
      ChainedNoOverlap(out, j + 1, k);
    }
  }

  lemma {:induction false} CountZerosBound(rem: seq<int>)
    ensures CountZeros(rem) <= |rem|
    ensures CountZeros(rem) == |rem| <==> forall i :: 0 <= i < |rem| ==> rem[i] == 0
  {
    if rem != [] {
      var pre := rem[..|rem| - 1];
      CountZerosBound(pre);
      assert forall i :: 0 <= i < |pre| ==> pre[i] == rem[i];
    }
  }

  /** Setting one entry of the working copy changes the completed count by at most one. */
  lemma {:induction false} CountZerosUpdate(rem: seq<int>, k: int, v: int)
    requires 0 <= k < |rem|
    ensures CountZeros(rem[k := v]) ==
              CountZeros(rem) - (if rem[k] == 0 then 1 else 0) + (if v == 0 then 1 else 0)
  {
    var n := |rem| - 1;
    var rem' := rem[k := v];
    if k == n {
      assert rem'[..n] == rem[..n];
    } else {
      CountZerosUpdate(rem[..n], k, v);
      assert rem'[..n] == rem[..n][k := v];
    }
  }

  lemma {:induction false} SumUpdate(s: seq<int>, k: int, v: int)
    requires 0 <= k < |s|
    ensures Sum(s[k := v]) == Sum(s) - s[k] + v
  {
    var n := |s| - 1;
    var s' := s[k := v];
    if k == n {
      assert s'[..n] == s[..n];
    } else {
      SumUpdate(s[..n], k, v);
      assert s'[..n] == s[..n][k := v];
    }
  }

  lemma {:induction false} SumNonNegative(s: seq<int>)
    requires forall i :: 0 <= i < |s| ==> s[i] >= 0
    ensures Sum(s) >= 0
    ensures Sum(s) == 0 <==> forall i :: 0 <= i < |s| ==> s[i] == 0
  {
    if s != [] {
      var pre := s[..|s| - 1];
      assert forall i :: 0 <= i < |pre| ==> pre[i] == s[i];
      SumNonNegative(pre);
    }
  }

  lemma {:induction false} CountZerosNone(rem: seq<int>)
    requires forall i :: 0 <= i < |rem| ==> rem[i] != 0
    ensures CountZeros(rem) == 0
  {
    if rem != [] {
      var pre := rem[..|rem| - 1];
      assert forall i :: 0 <= i < |pre| ==> pre[i] == rem[i];
      CountZerosNone(pre);
    }
  }

  lemma {:induction false} SumCons(s: seq<int>)
    requires s != []
    ensures Sum(s) == s[0] + Sum(s[1..])
    decreases |s|
  {
    if |s| > 1 {
      var n := |s| - 1;
      SumCons(s[..n]);
      assert s[..n][1..] == s[1..][..n - 1];
      assert s[..n][0] == s[0];
    } else {
      assert s[..0] == [] && s[1..] == [];
    }
  }

  // ---------------------------------------------------------------------------
  // The caller's view: schedule entries named by pid
  // ---------------------------------------------------------------------------

  /** CPU time the schedule gives to the process named `pid`. */
  function PidWork(schedule: seq<Entry>, pid: int): int {
    if schedule == [] then 0
    else
      var e := schedule[|schedule| - 1];
      PidWork(schedule[..|schedule| - 1], pid) + (if e.pid == pid then e.end - e.start else 0)
  }

  /** Entries are non-empty, start no earlier than time 0 and never overlap. */
  predicate Sequential(schedule: seq<Entry>) {
    && (forall k :: 0 <= k < |schedule| ==> schedule[k].start < schedule[k].end)
    && (|schedule| > 0 ==> schedule[0].start >= 0)
    && (forall k :: 0 < k < |schedule| ==> schedule[k - 1].end <= schedule[k].start)
  }

  lemma EntriesSequential(ps: seq<Process>, out: seq<Slice>)
    requires IndicesIn(out, |ps|)
    requires Chained(out)
    ensures Sequential(ToEntries(ps, out))
  {
  }

  /** With distinct pids, the entries named `ps[i].pid` are exactly the rows of record `i`. */
  lemma PidMatchesRecord(ps: seq<Process>, out: seq<Slice>, i: int, k: int)
    requires DistinctPids(ps) && IndicesIn(out, |ps|)
    requires 0 <= i < |ps| && 0 <= k < |out|
    ensures ToEntries(ps, out)[k].pid == ps[i].pid <==> out[k].idx == i
  {
    var j := out[k].idx;
    if j < i {
      assert ps[j].pid != ps[i].pid;
    } else if i < j {
      assert ps[i].pid != ps[j].pid;
    }
  }

  /** With distinct pids, the CPU time the caller sees for a pid is its record's work. */
  lemma {:induction false} PidWorkIsWork(ps: seq<Process>, out: seq<Slice>, i: int)
    requires DistinctPids(ps) && IndicesIn(out, |ps|)
    requires 0 <= i < |ps|
    ensures PidWork(ToEntries(ps, out), ps[i].pid) == Work(out, i)
  {
    if out != [] {
      var n := |out| - 1;
      var pre := out[..n];
      assert IndicesIn(pre, |ps|);
      PidWorkIsWork(ps, pre, i);
      assert ToEntries(ps, out)[..n] == ToEntries(ps, pre);
      PidMatchesRecord(ps, out, i, n);
    }
  }

  lemma ChainedPrefix(out: seq<Slice>, n: int)
    requires Chained(out) && 0 <= n <= |out|
    ensures Chained(out[..n])
  {
  }

  /** Row `k` is the last row of record `i` in `out` and ends no earlier than `a` plus the work `i` received. */
  predicate EndsLastAfter(out: seq<Slice>, i: int, a: int, k: int) {
    && 0 <= k < |out|
    && out[k].idx == i
    && out[k].end >= a + Work(out, i)
    && forall j :: k < j < |out| ==> out[j].idx != i
  }

  /** In a schedule without overlaps, if none of record `i`'s rows starts
      before `a`, its last row ends no earlier than `a` plus all the work it received. */
  lemma {:induction false} LastRowEndsAfterWork(out: seq<Slice>, i: int, a: int)
    requires Chained(out)
    requires forall k :: 0 <= k < |out| && out[k].idx == i ==> a <= out[k].start
    requires Work(out, i) > 0
    ensures exists k :: EndsLastAfter(out, i, a, k)
  {
    var pre := out[..|out| - 1];
    assert out == pre + [out[|out| - 1]];
    WorkAppend(pre, out[|out| - 1], i);
    ChainedPrefix(out, |out| - 1);
    WorkNonNegative(pre, i);
    if Work(pre, i) > 0 {
      LastRowEndsAfterWork(pre, i, a);
    }
    ExtendLastRow(out, pre, i, a);
  }

  /** The last row of `i` in `out` follows from the last row of `i` in all but its final row. */
  lemma ExtendLastRow(out: seq<Slice>, pre: seq<Slice>, i: int, a: int)
    requires |out| > 0 && pre == out[..|out| - 1] && Chained(out)
    requires forall k :: 0 <= k < |out| && out[k].idx == i ==> a <= out[k].start
    requires Work(out, i) == Work(pre, i) + (if out[|out| - 1].idx == i then Length(out[|out| - 1]) else 0)
    requires Work(pre, i) >= 0 && Work(out, i) > 0
    requires Work(pre, i) > 0 ==> exists k :: EndsLastAfter(pre, i, a, k)
    ensures exists k :: EndsLastAfter(out, i, a, k)
  {
    var n := |out| - 1;
    if out[n].idx == i {
      if Work(pre, i) > 0 {
        var k :| EndsLastAfter(pre, i, a, k);
        assert out[k] == pre[k];
        ChainedNoOverlap(out, k, n);
      }
      assert EndsLastAfter(out, i, a, n);
    } else {
      var k :| EndsLastAfter(pre, i, a, k);
      assert out[k] == pre[k];
      LastRowSurvives(out, pre, i, k);
      assert EndsLastAfter(out, i, a, k);
    }
  }

  /** Appending a row of another record keeps row `k` the last row of `i`. */
  lemma LastRowSurvives(out: seq<Slice>, pre: seq<Slice>, i: int, k: int)
    requires 0 <= k < |out| - 1 && pre == out[..|out| - 1] && out[|out| - 1].idx != i
    requires forall j :: k < j < |pre| ==> pre[j].idx != i
    ensures forall j :: k < j < |out| ==> out[j].idx != i
  {
    forall j | k < j < |out| ensures out[j].idx != i {
      if j < |pre| {
        assert pre[j] == out[j];
      }
    }
  }
}
