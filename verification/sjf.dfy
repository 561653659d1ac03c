/**
  Non-preemptive Shortest Job First. The clock starts at 0; while some record
  is unfinished, the records that have arrived and still have work are
  collected; if there are none the clock ticks by one, otherwise the one with
  the smallest burst (earliest in the input on ties) runs to completion.
 */
module ShortestJobFirst {
  import opened Processes
  import opened GreedySpec
  import Selection

  /** The loop variables: the clock, the working copy of every record's
      `remainingTime`, the `completed` counter and the schedule so far. */
  datatype State = State(time: int, rem: seq<int>, completed: nat, out: seq<Slice>)

  function Init(ps: seq<Process>): State {
    State(0, Bursts(ps), 0, [])
  }

  /** What the loop keeps true of its own variables: a record is either
      untouched or finished, and `completed` counts the finished ones. */
  predicate Wf(ps: seq<Process>, st: State) {
    && PositiveBursts(ps)
    && |st.rem| == |ps|
    && st.completed == CountZeros(st.rem)
    && (forall i :: 0 <= i < |ps| ==> st.rem[i] == 0 || st.rem[i] == ps[i].burst)
  }

  /** Clock distance to the latest arrival: bounds the number of idle ticks. */
  function Horizon(ps: seq<Process>, time: int): int {
    MaxArrival(ps) - time
  }

  /** When a record is unfinished but none is available, one is still to arrive. */
  lemma PendingArrivesLater(ps: seq<Process>, st: State)
    requires Wf(ps, st) && st.completed < |ps|
    requires forall j :: 0 <= j < |ps| ==> !Available(ps, st.rem, st.time)[j]
    ensures Horizon(ps, st.time) > 0
  {
    CountZerosBound(st.rem);
    var i :| 0 <= i < |ps| && st.rem[i] != 0;
    assert !Available(ps, st.rem, st.time)[i];
  }

  /** The state after running record `k` to completion. */
  function Run(ps: seq<Process>, st: State, k: nat): (st': State)
    requires Wf(ps, st) && k < |ps| && st.rem[k] > 0
    ensures Wf(ps, st')
    ensures Sum(st'.rem) == Sum(st.rem) - ps[k].burst
    ensures st'.completed == st.completed + 1
  {
    CountZerosUpdate(st.rem, k, 0);
    SumUpdate(st.rem, k, 0);
    var end := st.time + ps[k].burst;
    State(end, st.rem[k := 0], st.completed + 1, st.out + [Slice(k, st.time, end)])
  }

  /** One iteration of the `while (completed < processes.length)` loop. */
  function Step(ps: seq<Process>, st: State): (st': State)
    requires Wf(ps, st) && st.completed < |ps|
    ensures Wf(ps, st')
    ensures || Sum(st'.rem) < Sum(st.rem)
            || (Sum(st'.rem) == Sum(st.rem) && 0 <= Horizon(ps, st.time) && Horizon(ps, st'.time) < Horizon(ps, st.time))
  {
    var avail := Available(ps, st.rem, st.time);
    match Selection.Pick(avail, Bursts(ps))
    case None =>
      PendingArrivesLater(ps, st);
      st.(time := st.time + 1)
    case Some(k) =>
      Run(ps, st, k)
  }

  /** The loop run to its end: every record finished. */
  function Loop(ps: seq<Process>, st: State): (r: State)
    requires Wf(ps, st)
    ensures Wf(ps, r)
    ensures r.completed == |ps|
    ensures forall i :: 0 <= i < |ps| ==> r.rem[i] == 0
    decreases Sum(st.rem), Horizon(ps, st.time)
  {
    CountZerosBound(st.rem);
    SumNonNegative(st.rem);
    if st.completed >= |ps| then st
    else Loop(ps, Step(ps, st))
  }

  function Slices(ps: seq<Process>): seq<Slice>
    requires PositiveBursts(ps)
  {
    assert CountZeros(Bursts(ps)) == 0 by {
      CountZerosNone(Bursts(ps));
    }
    Loop(ps, Init(ps)).out
  }

  /** What the loop keeps true of the schedule it builds. */
  predicate Trace(ps: seq<Process>, st: State)
    requires |st.rem| == |ps|
  {
    && IndicesIn(st.out, |ps|)
    && (forall i :: 0 <= i < |ps| ==> st.rem[i] == Remaining(ps, st.out, i))
    && (forall i :: 0 <= i < |ps| ==> Count(st.out, i) == (if st.rem[i] == 0 then 1 else 0))
    && PrevEnd(st.out) <= st.time
    && IdleUntil(ps, st.out, PrevEnd(st.out), st.time)
    && (forall k :: 0 <= k < |st.out| ==> GreedyStep(ps, NonPreemptive, st.out[..k], st.out[k]))
  }

  /** An idle tick: nothing was ready at the old clock value. */
  lemma IdleTrace(ps: seq<Process>, st: State)
    requires Wf(ps, st) && Trace(ps, st)
    requires forall j :: 0 <= j < |ps| ==> !Available(ps, st.rem, st.time)[j]
    ensures Trace(ps, st.(time := st.time + 1))
  {
    forall t, j | PrevEnd(st.out) <= t < st.time + 1 && 0 <= j < |ps|
      ensures !ReadyAt(ps, st.out, t, j)
    {
      if t == st.time {
        assert !Available(ps, st.rem, st.time)[j];
      }
    }
  }

  /** The row for the chosen record is the greedy row after the schedule so far. */
  lemma RunIsGreedy(ps: seq<Process>, st: State, k: nat)
    requires |st.rem| == |ps|
    requires forall i :: 0 <= i < |ps| ==> st.rem[i] == Remaining(ps, st.out, i)
    requires PrevEnd(st.out) <= st.time
    requires IdleUntil(ps, st.out, PrevEnd(st.out), st.time)
    requires Selection.IsChoice(Available(ps, st.rem, st.time), Bursts(ps), k)
    ensures GreedyStep(ps, NonPreemptive, st.out, Slice(k, st.time, st.time + ps[k].burst))
  {
    var avail := Available(ps, st.rem, st.time);
    forall j | 0 <= j < |ps| && ReadyAt(ps, st.out, st.time, j)
      ensures ps[k].burst <= ps[j].burst && (j < k ==> ps[k].burst < ps[j].burst)
    {
      assert avail[j];
    }
    assert avail[k];
  }

  /** Running record `k` to completion charges its whole burst to it and to nobody else. */
  lemma RunAccounts(ps: seq<Process>, st: State, k: nat)
    requires Wf(ps, st) && k < |ps| && st.rem[k] > 0
    requires IndicesIn(st.out, |ps|)
    requires forall i :: 0 <= i < |ps| ==> st.rem[i] == Remaining(ps, st.out, i)
    requires forall i :: 0 <= i < |ps| ==> Count(st.out, i) == (if st.rem[i] == 0 then 1 else 0)
    ensures var st' := Run(ps, st, k);
            && IndicesIn(st'.out, |ps|)
            && (forall i :: 0 <= i < |ps| ==> st'.rem[i] == Remaining(ps, st'.out, i))
            && (forall i :: 0 <= i < |ps| ==> Count(st'.out, i) == (if st'.rem[i] == 0 then 1 else 0))
  {
    var s := Slice(k, st.time, st.time + ps[k].burst);
    var st' := Run(ps, st, k);
    assert st'.out == st.out + [s];
    forall i | 0 <= i < |ps|
      ensures st'.rem[i] == Remaining(ps, st'.out, i)
      ensures Count(st'.out, i) == (if st'.rem[i] == 0 then 1 else 0)
    {
      WorkAppend(st.out, s, i);
    }
  }

  /** Running the chosen record to completion emits the greedy row. */
  lemma RunTrace(ps: seq<Process>, st: State, k: nat)
    requires Wf(ps, st) && Trace(ps, st)
    requires k < |ps| && st.rem[k] > 0
    requires GreedyStep(ps, NonPreemptive, st.out, Slice(k, st.time, st.time + ps[k].burst))
    ensures Trace(ps, Run(ps, st, k))
  {
    var s := Slice(k, st.time, st.time + ps[k].burst);
    var st' := Run(ps, st, k);
    assert st'.out == st.out + [s];
    RunAccounts(ps, st, k);
    ExtendSteps(ps, NonPreemptive, st.out, s, st'.out);
  }

  lemma StepTrace(ps: seq<Process>, st: State)
    requires Wf(ps, st) && st.completed < |ps|
    requires Trace(ps, st)
    ensures Trace(ps, Step(ps, st))
  {
    var avail := Available(ps, st.rem, st.time);
    match Selection.Pick(avail, Bursts(ps))
    case None =>
      assert Step(ps, st) == st.(time := st.time + 1);
      IdleTrace(ps, st);
    case Some(k) =>
      assert Step(ps, st) == Run(ps, st, k);
      RunIsGreedy(ps, st, k);
      RunTrace(ps, st, k);
  }

  lemma {:induction false} LoopTrace(ps: seq<Process>, st: State)
    requires Wf(ps, st)
    requires Trace(ps, st)
    ensures Trace(ps, Loop(ps, st))
    decreases Sum(st.rem), Horizon(ps, st.time)
  {
    CountZerosBound(st.rem);
    SumNonNegative(st.rem);
    if st.completed < |ps| {
      var st' := Step(ps, st);
      assert Loop(ps, st) == Loop(ps, st');
      StepTrace(ps, st);
      LoopTrace(ps, st');
    } else {
      assert Loop(ps, st) == st;
    }
  }

  lemma InitTrace(ps: seq<Process>)
    requires PositiveBursts(ps)
    ensures Wf(ps, Init(ps)) && Trace(ps, Init(ps))
  {
    CountZerosNone(Bursts(ps));
  }

  /** SJF emits the unique greedy schedule: each row starts at the first
      instant some record is ready, runs the ready record with the smallest
      burst (earliest in the input on ties) for its whole burst, and every
      record appears exactly once. */
  lemma SlicesAreGreedy(ps: seq<Process>)
    requires PositiveBursts(ps)
    ensures IndicesIn(Slices(ps), |ps|)
    ensures IsGreedySchedule(ps, NonPreemptive, Slices(ps))
    ensures forall i :: 0 <= i < |ps| ==> Count(Slices(ps), i) == 1
  {
    InitTrace(ps);
    LoopTrace(ps, Init(ps));
  }

  /** Rows never overlap, each starts no earlier than its record's arrival
      and lasts exactly that record's burst. */
  lemma SlicesTiming(ps: seq<Process>)
    requires PositiveBursts(ps)
    ensures Chained(Slices(ps))
    ensures forall k :: 0 <= k < |Slices(ps)| ==>
              var s := Slices(ps)[k];
              s.idx < |ps| && ps[s.idx].arrival <= s.start && s.end - s.start == ps[s.idx].burst
  {
    var out := Slices(ps);
    SlicesAreGreedy(ps);
    GreedyChained(ps, NonPreemptive, out);
    forall k | 0 <= k < |out|
      ensures out[k].end - out[k].start == ps[out[k].idx].burst
    {
      assert GreedyStep(ps, NonPreemptive, out[..k], out[k]);
    }
  }

  /** The schedule as `sjf` returns it. */
  function Schedule(ps: seq<Process>): (r: seq<Entry>)
    requires PositiveBursts(ps)
    ensures |r| == |Slices(ps)|
    ensures forall k :: 0 <= k < |r| ==>
              var s := Slices(ps)[k];
              s.idx < |ps| && r[k] == Entry(ps[s.idx].pid, s.start, s.end)
  {
    SlicesAreGreedy(ps);
    ToEntries(ps, Slices(ps))
  }
}
