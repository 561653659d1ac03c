/**
  Preemptive Shortest Remaining Time First. Like SJF the clock starts at 0 and
  ticks by one while nothing is ready, but every step runs the ready record
  with the least remaining time (earliest in the input on ties) for a single
  time unit, so a newly arrived shorter job takes over at the next tick.
 */
module ShortestRemainingFirst {
  import opened Processes
  import opened GreedySpec
  import Selection

  /** The loop variables: the clock, the working copy of every record's
      `remainingTime`, the `completed` counter and the schedule so far. */
  datatype State = State(time: int, rem: seq<int>, completed: nat, out: seq<Slice>)

  function Init(ps: seq<Process>): State {
    State(0, Bursts(ps), 0, [])
  }

  /** What the loop keeps true of its own variables: remaining times stay
      within [0, burst] and `completed` counts the records that reached 0. */
  predicate Wf(ps: seq<Process>, st: State) {
    && PositiveBursts(ps)
    && |st.rem| == |ps|
    && st.completed == CountZeros(st.rem)
    && (forall i :: 0 <= i < |ps| ==> 0 <= st.rem[i] <= ps[i].burst)
  }

  /** Clock distance to the latest arrival: bounds the number of idle ticks. */
  function Horizon(ps: seq<Process>, time: int): int {
    MaxArrival(ps) - time
  }

  /** When a record is unfinished but none is available, one is still to arrive. */
  lemma PendingArrivesLater(ps: seq<Process>, st: State)
    requires Wf(ps, st) && st.completed < |ps|
    requires forall j :: 0 <= j < |ps| ==> !Available(ps, st.rem, st.time)[j]
    ensures Horizon(ps, st.time) > 0
  {
    CountZerosBound(st.rem);
    var i :| 0 <= i < |ps| && st.rem[i] != 0;
    assert !Available(ps, st.rem, st.time)[i];
  }

  /** The state after running record `k` for one unit. */
  function Tick(ps: seq<Process>, st: State, k: nat): (st': State)
    requires Wf(ps, st) && k < |ps| && st.rem[k] > 0
    ensures Wf(ps, st')
    ensures Sum(st'.rem) == Sum(st.rem) - 1
    ensures st'.completed == st.completed + (if st.rem[k] == 1 then 1 else 0)
  {
    CountZerosUpdate(st.rem, k, st.rem[k] - 1);
    SumUpdate(st.rem, k, st.rem[k] - 1);
    var left := st.rem[k] - 1;
    State(st.time + 1, st.rem[k := left], if left == 0 then st.completed + 1 else st.completed,
          st.out + [Slice(k, st.time, st.time + 1)])
  }

  /** One iteration of the `while (completed < processes.length)` loop. */
  function Step(ps: seq<Process>, st: State): (st': State)
    requires Wf(ps, st) && st.completed < |ps|
    ensures Wf(ps, st')
    ensures || Sum(st'.rem) < Sum(st.rem)
            || (Sum(st'.rem) == Sum(st.rem) && 0 <= Horizon(ps, st.time) && Horizon(ps, st'.time) < Horizon(ps, st.time))
  {
    var avail := Available(ps, st.rem, st.time);
    match Selection.Pick(avail, st.rem)
    case None =>
      PendingArrivesLater(ps, st);
      st.(time := st.time + 1)
    case Some(k) =>
      Tick(ps, st, k)
  }

  /** The loop run to its end: every record finished. */
  function Loop(ps: seq<Process>, st: State): (r: State)
    requires Wf(ps, st)
    ensures Wf(ps, r)
    ensures r.completed == |ps|
    ensures forall i :: 0 <= i < |ps| ==> r.rem[i] == 0
    decreases Sum(st.rem), Horizon(ps, st.time)
  {
    CountZerosBound(st.rem);
    SumNonNegative(st.rem);
    if st.completed >= |ps| then st
    else Loop(ps, Step(ps, st))
  }

  function Slices(ps: seq<Process>): seq<Slice>
    requires PositiveBursts(ps)
  {
    assert CountZeros(Bursts(ps)) == 0 by {
      CountZerosNone(Bursts(ps));
    }
    Loop(ps, Init(ps)).out
  }

  /** What the loop keeps true of the schedule it builds. */
  predicate Trace(ps: seq<Process>, st: State)
    requires |st.rem| == |ps|
  {
    && IndicesIn(st.out, |ps|)
    && (forall i :: 0 <= i < |ps| ==> st.rem[i] == Remaining(ps, st.out, i))
    && (forall i :: 0 <= i < |ps| ==> Count(st.out, i) == Work(st.out, i))
    && PrevEnd(st.out) <= st.time
    && IdleUntil(ps, st.out, PrevEnd(st.out), st.time)
    && (forall k :: 0 <= k < |st.out| ==> GreedyStep(ps, Preemptive, st.out[..k], st.out[k]))
  }

  /** An idle tick: nothing was ready at the old clock value. */
  lemma IdleTrace(ps: seq<Process>, st: State)
    requires Wf(ps, st) && Trace(ps, st)
    requires forall j :: 0 <= j < |ps| ==> !Available(ps, st.rem, st.time)[j]
    ensures Trace(ps, st.(time := st.time + 1))
  {
    forall t, j | PrevEnd(st.out) <= t < st.time + 1 && 0 <= j < |ps|
      ensures !ReadyAt(ps, st.out, t, j)
    {
      if t == st.time {
        assert !Available(ps, st.rem, st.time)[j];
      }
    }
  }

  /** The unit row for the chosen record is the greedy row after the schedule so far. */
  lemma TickIsGreedy(ps: seq<Process>, st: State, k: nat)
    requires |st.rem| == |ps|
    requires forall i :: 0 <= i < |ps| ==> st.rem[i] == Remaining(ps, st.out, i)
    requires PrevEnd(st.out) <= st.time
    requires IdleUntil(ps, st.out, PrevEnd(st.out), st.time)
    requires Selection.IsChoice(Available(ps, st.rem, st.time), st.rem, k)
    ensures GreedyStep(ps, Preemptive, st.out, Slice(k, st.time, st.time + 1))
  {
    var avail := Available(ps, st.rem, st.time);
    forall j | 0 <= j < |ps| && ReadyAt(ps, st.out, st.time, j)
      ensures st.rem[k] <= st.rem[j] && (j < k ==> st.rem[k] < st.rem[j])
    {
      assert avail[j];
    }
    assert avail[k];
  }

  /** Running record `k` for one unit charges that unit to it and to nobody else. */
  lemma TickAccounts(ps: seq<Process>, st: State, k: nat)
    requires Wf(ps, st) && k < |ps| && st.rem[k] > 0
    requires IndicesIn(st.out, |ps|)
    requires forall i :: 0 <= i < |ps| ==> st.rem[i] == Remaining(ps, st.out, i)
    requires forall i :: 0 <= i < |ps| ==> Count(st.out, i) == Work(st.out, i)
    ensures var st' := Tick(ps, st, k);
            && IndicesIn(st'.out, |ps|)
            && (forall i :: 0 <= i < |ps| ==> st'.rem[i] == Remaining(ps, st'.out, i))
            && (forall i :: 0 <= i < |ps| ==> Count(st'.out, i) == Work(st'.out, i))
  {
    var s := Slice(k, st.time, st.time + 1);
    var st' := Tick(ps, st, k);
    assert st'.out == st.out + [s];
    forall i | 0 <= i < |ps|
      ensures st'.rem[i] == Remaining(ps, st'.out, i)
      ensures Count(st'.out, i) == Work(st'.out, i)
    {
      WorkAppend(st.out, s, i);
    }
  }

  /** Running the chosen record for one unit emits the greedy row. */
  lemma TickTrace(ps: seq<Process>, st: State, k: nat)
    requires Wf(ps, st) && Trace(ps, st)
    requires k < |ps| && st.rem[k] > 0
    requires GreedyStep(ps, Preemptive, st.out, Slice(k, st.time, st.time + 1))
    ensures Trace(ps, Tick(ps, st, k))
  {
    var s := Slice(k, st.time, st.time + 1);
    var st' := Tick(ps, st, k);
    assert st'.out == st.out + [s];
    TickAccounts(ps, st, k);
    ExtendSteps(ps, Preemptive, st.out, s, st'.out);
  }

  lemma StepTrace(ps: seq<Process>, st: State)
    requires Wf(ps, st) && st.completed < |ps|
    requires Trace(ps, st)
    ensures Trace(ps, Step(ps, st))
  {
    var avail := Available(ps, st.rem, st.time);
    match Selection.Pick(avail, st.rem)
    case None =>
      assert Step(ps, st) == st.(time := st.time + 1);
      IdleTrace(ps, st);
    case Some(k) =>
      assert Step(ps, st) == Tick(ps, st, k);
      TickIsGreedy(ps, st, k);
      TickTrace(ps, st, k);
  }

  lemma {:induction false} LoopTrace(ps: seq<Process>, st: State)
    requires Wf(ps, st)
    requires Trace(ps, st)
    ensures Trace(ps, Loop(ps, st))
    decreases Sum(st.rem), Horizon(ps, st.time)
  {
    CountZerosBound(st.rem);
    SumNonNegative(st.rem);
    if st.completed < |ps| {
      var st' := Step(ps, st);
      assert Loop(ps, st) == Loop(ps, st');
      StepTrace(ps, st);
      LoopTrace(ps, st');
    } else {
      assert Loop(ps, st) == st;
    }
  }

  lemma InitTrace(ps: seq<Process>)
    requires PositiveBursts(ps)
    ensures Wf(ps, Init(ps)) && Trace(ps, Init(ps))
  {
    CountZerosNone(Bursts(ps));
  }

  /** SRTF emits the unique greedy schedule: each row starts at the first
      instant some record is ready and runs, for one unit, the ready record
      with the least remaining time (earliest in the input on ties); every
      record appears in exactly as many rows as its burst. */
  lemma SlicesAreGreedy(ps: seq<Process>)
    requires PositiveBursts(ps)
    ensures IndicesIn(Slices(ps), |ps|)
    ensures IsGreedySchedule(ps, Preemptive, Slices(ps))
    ensures forall i :: 0 <= i < |ps| ==> Count(Slices(ps), i) == ps[i].burst
  {
    InitTrace(ps);
    LoopTrace(ps, Init(ps));
  }

  /** Every row is one time unit, rows never overlap, and none starts before its record arrives. */
  lemma SlicesTiming(ps: seq<Process>)
    requires PositiveBursts(ps)
    ensures Chained(Slices(ps))
    ensures forall k :: 0 <= k < |Slices(ps)| ==>
              var s := Slices(ps)[k];
              s.idx < |ps| && ps[s.idx].arrival <= s.start && s.end == s.start + 1
  {
    var out := Slices(ps);
    SlicesAreGreedy(ps);
    GreedyChained(ps, Preemptive, out);
    forall k | 0 <= k < |out|
      ensures out[k].end == out[k].start + 1
    {
      assert GreedyStep(ps, Preemptive, out[..k], out[k]);
    }
  }

  /** The schedule as `srtf` returns it. */
  function Schedule(ps: seq<Process>): (r: seq<Entry>)
    requires PositiveBursts(ps)
    ensures |r| == |Slices(ps)|
    ensures forall k :: 0 <= k < |r| ==>
              var s := Slices(ps)[k];
              s.idx < |ps| && r[k] == Entry(ps[s.idx].pid, s.start, s.end)
    ensures forall k :: 0 <= k < |r| ==> r[k].end == r[k].start + 1
  {
    SlicesTiming(ps);
    ToEntries(ps, Slices(ps))
  }
}
