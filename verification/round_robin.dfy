/**
  Round Robin. All records are put in a FIFO queue in input order, whatever
  their arrival times; the head is taken off, runs for the quantum or for what
  it has left if that is not more, and goes back to the tail only if it still
  has work. The clock starts at 0 and never idles.
 */
module RoundRobin {
  import opened Processes

  /** The loop variables: the clock, the queue of record positions, the
      working copy of every record's `remainingTime`, and the schedule so far. */
  datatype State = State(time: int, queue: seq<nat>, rem: seq<int>, out: seq<Slice>)

  function Min(a: int, b: int): int {
    if a <= b then a else b
  }

  /** The positions 0, 1, ..., n - 1: the queue `[...processes]` starts as. */
  function Positions(n: nat): (r: seq<nat>)
    ensures |r| == n
    ensures forall i :: 0 <= i < n ==> r[i] == i
  {
    seq(n, i requires 0 <= i < n => i)
  }

  function Init(ps: seq<Process>): State {
    State(0, Positions(|ps|), Bursts(ps), [])
  }

  predicate DistinctPositions(queue: seq<nat>) {
    forall a, b :: 0 <= a < b < |queue| ==> queue[a] != queue[b]
  }

  /** What the loop keeps true of its own variables: exactly the records with
      work left are queued, each once. */
  predicate Wf(ps: seq<Process>, quantum: int, st: State) {
    && PositiveBursts(ps)
    && quantum > 0
    && |st.rem| == |ps|
    && (forall a :: 0 <= a < |st.queue| ==> st.queue[a] < |ps|)
    && DistinctPositions(st.queue)
    && (forall i :: 0 <= i < |ps| ==> st.rem[i] >= 0)
    && (forall i {:trigger i in st.queue} :: 0 <= i < |ps| ==> (i in st.queue <==> st.rem[i] > 0))
  }

  /** Moving the head of a queue of distinct positions to its tail keeps its members and their distinctness. */
  lemma RotateQueue(queue: seq<nat>, n: nat, q: seq<nat>)
    requires |queue| > 0 && DistinctPositions(queue)
    requires forall a :: 0 <= a < |queue| ==> queue[a] < n
    requires q == queue[1..] + [queue[0]]
    ensures DistinctPositions(q)
    ensures forall a :: 0 <= a < |q| ==> q[a] < n
    ensures forall i :: i in q <==> i in queue
  {
    var last := |q| - 1;
    assert q[last] == queue[0];
    assert forall a :: 0 <= a < last ==> q[a] == queue[a + 1];
    forall a, b | 0 <= a < b < |q| ensures q[a] != q[b] {
      if b == last {
        assert queue[a + 1] != queue[0];
      } else {
        assert queue[a + 1] != queue[b + 1];
      }
    }
    forall i | i in queue ensures i in q {
      var a :| 0 <= a < |queue| && queue[a] == i;
      if a == 0 { assert q[last] == i; } else { assert q[a - 1] == i; }
    }
  }

  /** Dropping the head of a queue of distinct positions removes exactly that position. */
  lemma DropHead(queue: seq<nat>, n: nat, q: seq<nat>)
    requires |queue| > 0 && DistinctPositions(queue)
    requires forall a :: 0 <= a < |queue| ==> queue[a] < n
    requires q == queue[1..]
    ensures DistinctPositions(q)
    ensures forall a :: 0 <= a < |q| ==> q[a] < n
    ensures forall i :: i in q <==> i in queue && i != queue[0]
  {
    assert forall a :: 0 <= a < |q| ==> q[a] == queue[a + 1];
    forall i | i in queue && i != queue[0] ensures i in q {
      var a :| 0 <= a < |queue| && queue[a] == i;
      assert q[a - 1] == i;
    }
    forall i | i in q ensures i != queue[0] {
      var a :| 0 <= a < |q| && q[a] == i;
      assert queue[a + 1] == i;
    }
  }

  /** The state after the head ran for a quantum and went back to the tail:
      the rest of the queue moves up, the head's row is appended, and it has a
      quantum less left. */
  function Requeue(ps: seq<Process>, quantum: int, st: State): (st': State)
    requires Wf(ps, quantum, st) && |st.queue| > 0 && st.rem[st.queue[0]] > quantum
    ensures Wf(ps, quantum, st')
    ensures Sum(st'.rem) == Sum(st.rem) - quantum
    ensures st'.queue == st.queue[1..] + [st.queue[0]]
    ensures st'.rem == st.rem[st.queue[0] := st.rem[st.queue[0]] - quantum]
    ensures st'.out == st.out + [Slice(st.queue[0], st.time, st.time + quantum)]
    ensures st'.time == st.time + quantum
  {
    var p := st.queue[0];
    var st' := State(st.time + quantum, st.queue[1..] + [p], st.rem[p := st.rem[p] - quantum],
                     st.out + [Slice(p, st.time, st.time + quantum)]);
    SumUpdate(st.rem, p, st.rem[p] - quantum);
    RotateQueue(st.queue, |ps|, st'.queue);
    st'
  }

  /** The state after the head ran to completion and left the queue: the rest
      of the queue moves up and the head's row covers all it had left. */
  function Finish(ps: seq<Process>, quantum: int, st: State): (st': State)
    requires Wf(ps, quantum, st) && |st.queue| > 0 && st.rem[st.queue[0]] <= quantum
    ensures Wf(ps, quantum, st')
    ensures Sum(st'.rem) < Sum(st.rem)
    ensures st'.queue == st.queue[1..]
    ensures st'.rem == st.rem[st.queue[0] := 0]
    ensures st'.out == st.out + [Slice(st.queue[0], st.time, st.time + st.rem[st.queue[0]])]
    ensures st'.time == st.time + st.rem[st.queue[0]]
  {
    var p := st.queue[0];
    assert p in st.queue;
    var st' := State(st.time + st.rem[p], st.queue[1..], st.rem[p := 0],
                     st.out + [Slice(p, st.time, st.time + st.rem[p])]);
    SumUpdate(st.rem, p, 0);
    DropHead(st.queue, |ps|, st'.queue);
    st'
  }

  /** One iteration of the `while (queue.length > 0)` loop. */
  function Step(ps: seq<Process>, quantum: int, st: State): (st': State)
    requires Wf(ps, quantum, st) && |st.queue| > 0
    ensures Wf(ps, quantum, st')
    ensures Sum(st'.rem) < Sum(st.rem)
  {
    if st.rem[st.queue[0]] > quantum then Requeue(ps, quantum, st) else Finish(ps, quantum, st)
  }

  /** The loop run to its end: the queue is empty and no record has work left. */
  function Loop(ps: seq<Process>, quantum: int, st: State): (r: State)
    requires Wf(ps, quantum, st)
    ensures Wf(ps, quantum, r)
    ensures r.queue == []
    ensures forall i :: 0 <= i < |ps| ==> r.rem[i] == 0
    decreases Sum(st.rem)
  {
    SumNonNegative(st.rem);
    if |st.queue| == 0 then
      assert forall i | 0 <= i < |ps| :: st.rem[i] == 0 by {
        forall i | 0 <= i < |ps| ensures st.rem[i] == 0 { assert i !in st.queue; }
      }
      st
    else Loop(ps, quantum, Step(ps, quantum, st))
  }

  function Slices(ps: seq<Process>, quantum: int): seq<Slice>
    requires PositiveBursts(ps) && quantum > 0
  {
    assert forall i :: 0 <= i < |ps| ==> i in Positions(|ps|) by {
      forall i | 0 <= i < |ps| ensures i in Positions(|ps|) {
        assert Positions(|ps|)[i] == i;
      }
    }
    Loop(ps, quantum, Init(ps)).out
  }

  /** Row `s` as Round Robin emits it after the rows `prefix`: it starts when
      the previous row ended (at 0 for the first), and its record, which still
      has work, runs for the quantum or for what it has left if that is less. */
  predicate RoundRobinRow(ps: seq<Process>, quantum: int, prefix: seq<Slice>, s: Slice) {
    && s.idx < |ps|
    && Remaining(ps, prefix, s.idx) > 0
    && s.start == PrevEnd(prefix)
    && Length(s) == Min(quantum, Remaining(ps, prefix, s.idx))
  }

  /** What the loop keeps true of the schedule it builds. */
  predicate Trace(ps: seq<Process>, quantum: int, st: State)
    requires |st.rem| == |ps|
  {
    && IndicesIn(st.out, |ps|)
    && (forall i :: 0 <= i < |ps| ==> st.rem[i] == Remaining(ps, st.out, i))
    && PrevEnd(st.out) == st.time
    && st.time + Sum(st.rem) == TotalBurst(ps)
    && (forall k :: 0 <= k < |st.out| ==> RoundRobinRow(ps, quantum, st.out[..k], st.out[k]))
  }

  /** One iteration runs the head of the queue for the quantum or for what it has left. */
  lemma StepFields(ps: seq<Process>, quantum: int, st: State)
    requires Wf(ps, quantum, st) && |st.queue| > 0
    ensures st.queue[0] < |ps| && st.rem[st.queue[0]] > 0
    ensures Step(ps, quantum, st).out
              == st.out + [Slice(st.queue[0], st.time, st.time + Min(quantum, st.rem[st.queue[0]]))]
    ensures Step(ps, quantum, st).rem == st.rem[st.queue[0] := st.rem[st.queue[0]] - Min(quantum, st.rem[st.queue[0]])]
    ensures Step(ps, quantum, st).time == st.time + Min(quantum, st.rem[st.queue[0]])
  {
    assert st.queue[0] in st.queue;
  }

  /** Appending a Round Robin row keeps every row a Round Robin row. */
  lemma ExtendRows(ps: seq<Process>, quantum: int, out: seq<Slice>, s: Slice, out': seq<Slice>)
    requires forall m :: 0 <= m < |out| ==> RoundRobinRow(ps, quantum, out[..m], out[m])
    requires RoundRobinRow(ps, quantum, out, s)
    requires out' == out + [s]
    ensures forall m :: 0 <= m < |out'| ==> RoundRobinRow(ps, quantum, out'[..m], out'[m])
  {
    forall m | 0 <= m < |out'|
      ensures RoundRobinRow(ps, quantum, out'[..m], out'[m])
    {
      if m < |out| {
        assert out'[..m] == out[..m];
      } else {
        assert out'[..m] == out;
      }
    }
  }

  /** Running record `p` for the quantum or what it has left extends the trace. */
  lemma AppendTrace(ps: seq<Process>, quantum: int, st: State, st': State, p: nat)
    requires |st.rem| == |ps| && Trace(ps, quantum, st) && quantum > 0
    requires p < |ps| && st.rem[p] > 0
    requires st'.out == st.out + [Slice(p, st.time, st.time + Min(quantum, st.rem[p]))]
    requires st'.rem == st.rem[p := st.rem[p] - Min(quantum, st.rem[p])]
    requires st'.time == st.time + Min(quantum, st.rem[p])
    ensures |st'.rem| == |ps| && Trace(ps, quantum, st')
  {
    var d := Min(quantum, st.rem[p]);
    var s := Slice(p, st.time, st.time + d);
    SumUpdate(st.rem, p, st.rem[p] - d);
    forall i | 0 <= i < |ps|
      ensures st'.rem[i] == Remaining(ps, st'.out, i)
    {
      WorkAppend(st.out, s, i);
    }
    assert RoundRobinRow(ps, quantum, st.out, s);
    ExtendRows(ps, quantum, st.out, s, st'.out);
  }

  lemma StepTrace(ps: seq<Process>, quantum: int, st: State)
    requires Wf(ps, quantum, st) && |st.queue| > 0
    requires Trace(ps, quantum, st)
    ensures Trace(ps, quantum, Step(ps, quantum, st))
  {
    StepFields(ps, quantum, st);
    AppendTrace(ps, quantum, st, Step(ps, quantum, st), st.queue[0]);
  }

  lemma {:induction false} LoopTrace(ps: seq<Process>, quantum: int, st: State)
    requires Wf(ps, quantum, st)
    requires Trace(ps, quantum, st)
    ensures Trace(ps, quantum, Loop(ps, quantum, st))
    decreases Sum(st.rem)
  {
    SumNonNegative(st.rem);
    if |st.queue| > 0 {
      var st' := Step(ps, quantum, st);
      assert Loop(ps, quantum, st) == Loop(ps, quantum, st');
      StepTrace(ps, quantum, st);
      LoopTrace(ps, quantum, st');
    } else {
      assert Loop(ps, quantum, st) == st;
    }
  }

  lemma RowsBackToBack(ps: seq<Process>, quantum: int, out: seq<Slice>)
    requires forall k :: 0 <= k < |out| ==> RoundRobinRow(ps, quantum, out[..k], out[k])
    ensures BackToBack(out)
  {
    forall k | 0 < k < |out|
      ensures out[k - 1].end == out[k].start
    {
      assert RoundRobinRow(ps, quantum, out[..k], out[k]);
      assert out[..k][k - 1] == out[k - 1];
    }
    if |out| > 0 {
      assert RoundRobinRow(ps, quantum, out[..0], out[0]);
    }
  }

  lemma InitTrace(ps: seq<Process>, quantum: int)
    requires PositiveBursts(ps) && quantum > 0
    ensures Wf(ps, quantum, Init(ps)) && Trace(ps, quantum, Init(ps))
  {
    var st := Init(ps);
    forall i | 0 <= i < |ps| ensures i in st.queue {
      assert st.queue[i] == i;
    }
  }

  lemma FinalTrace(ps: seq<Process>, quantum: int, r: State)
    requires Wf(ps, quantum, r) && Trace(ps, quantum, r)
    requires forall i :: 0 <= i < |ps| ==> r.rem[i] == 0
    ensures Complete(ps, r.out)
    ensures PrevEnd(r.out) == TotalBurst(ps)
  {
    SumNonNegative(r.rem);
    forall i | 0 <= i < |ps| ensures Work(r.out, i) == ps[i].burst {
      assert r.rem[i] == Remaining(ps, r.out, i);
    }
  }

  /** Round Robin gives every record exactly its burst; rows follow one
      another without gaps from time 0, whatever the arrival times; each row
      is the quantum or the record's remaining time, whichever is less; and
      the last row ends at the sum of all bursts. */
  lemma SlicesProperties(ps: seq<Process>, quantum: int)
    requires PositiveBursts(ps) && quantum > 0
    ensures IndicesIn(Slices(ps, quantum), |ps|)
    ensures Complete(ps, Slices(ps, quantum))
    ensures BackToBack(Slices(ps, quantum))
    ensures forall k :: 0 <= k < |Slices(ps, quantum)| ==>
              RoundRobinRow(ps, quantum, Slices(ps, quantum)[..k], Slices(ps, quantum)[k])
    ensures PrevEnd(Slices(ps, quantum)) == TotalBurst(ps)
  {
    InitTrace(ps, quantum);
    LoopTrace(ps, quantum, Init(ps));
    var r := Loop(ps, quantum, Init(ps));
    FinalTrace(ps, quantum, r);
    RowsBackToBack(ps, quantum, r.out);
  }

  /** The schedule as `roundRobin` returns it. */
  function Schedule(ps: seq<Process>, quantum: int): (r: seq<Entry>)
    requires PositiveBursts(ps) && quantum > 0
    ensures |r| == |Slices(ps, quantum)|
    ensures forall k :: 0 <= k < |r| ==>
              var s := Slices(ps, quantum)[k];
              s.idx < |ps| && r[k] == Entry(ps[s.idx].pid, s.start, s.end)
  {
    SlicesProperties(ps, quantum);
    ToEntries(ps, Slices(ps, quantum))
  }

  lemma RowsNonEmpty(ps: seq<Process>, quantum: int, out: seq<Slice>)
    requires quantum > 0
    requires forall m :: 0 <= m < |out| ==> RoundRobinRow(ps, quantum, out[..m], out[m])
    ensures forall m :: 0 <= m < |out| ==> out[m].start < out[m].end
  {
    forall m | 0 <= m < |out| ensures out[m].start < out[m].end {
      assert RoundRobinRow(ps, quantum, out[..m], out[m]);
    }
  }

  /** The work a record receives after its row `k` is what it had left before
      that row minus what the row gave it. */
  lemma WorkAfterRow(ps: seq<Process>, quantum: int, out: seq<Slice>, k: int)
    requires 0 <= k < |out|
    requires RoundRobinRow(ps, quantum, out[..k], out[k])
    requires Work(out, out[k].idx) == ps[out[k].idx].burst
    ensures Work(out[k + 1..], out[k].idx)
              == Remaining(ps, out[..k], out[k].idx) - Min(quantum, Remaining(ps, out[..k], out[k].idx))
  {
    var i := out[k].idx;
    assert out[..k + 1] == out[..k] + [out[k]];
    assert out == out[..k + 1] + out[k + 1..];
    WorkAppend(out[..k], out[k], i);
    WorkConcat(out[..k + 1], out[k + 1..], i);
  }

  /** A row of `i` after row `k` is a row of `i` in the suffix `out[k + 1..]`. */
  lemma LaterRow(out: seq<Slice>, k: int, after: seq<Slice>, i: int)
    requires 0 <= k < |out| && after == out[k + 1..]
    ensures (exists m :: k < m < |out| && out[m].idx == i)
              <==> (exists m :: 0 <= m < |after| && after[m].idx == i)
  {
    if exists m :: k < m < |out| && out[m].idx == i {
      var m :| k < m < |out| && out[m].idx == i;
      assert after[m - k - 1] == out[m];
    }
    if exists m :: 0 <= m < |after| && after[m].idx == i {
      var m :| 0 <= m < |after| && after[m].idx == i;
      assert out[k + 1 + m] == after[m];
    }
  }

  /** In a complete schedule of Round Robin rows, the record of row `k` has a
      later row exactly when it had more than a quantum left before row `k`. */
  lemma RequeueRule(ps: seq<Process>, quantum: int, out: seq<Slice>, k: int)
    requires quantum > 0
    requires forall m :: 0 <= m < |out| ==> RoundRobinRow(ps, quantum, out[..m], out[m])
    requires Complete(ps, out)
    requires 0 <= k < |out|
    ensures out[k].idx < |ps|
    ensures (exists m :: k < m < |out| && out[m].idx == out[k].idx)
              <==> Remaining(ps, out[..k], out[k].idx) > quantum
  {
    var i := out[k].idx;
    var after := out[k + 1..];
    assert RoundRobinRow(ps, quantum, out[..k], out[k]);
    WorkAfterRow(ps, quantum, out, k);
    LaterRow(out, k, after, i);
    if Remaining(ps, out[..k], i) > quantum {
      WorkedHasSlice(after, i);
    } else {
      RowsNonEmpty(ps, quantum, out);
      assert forall m :: 0 <= m < |after| ==> after[m] == out[k + 1 + m];
      UnworkedHasNoSlice(after, i);
    }
  }

  /** Round Robin puts a record back at the tail of the queue after row `k`
      (so that it has a later row) exactly when it had more than a quantum
      left before row `k`; otherwise that row was its last. */
  lemma RequeuedIffMoreThanQuantum(ps: seq<Process>, quantum: int, k: int)
    requires PositiveBursts(ps) && quantum > 0
    requires 0 <= k < |Slices(ps, quantum)|
    ensures var out := Slices(ps, quantum);
            && out[k].idx < |ps|
            && ((exists m :: k < m < |out| && out[m].idx == out[k].idx)
                  <==> Remaining(ps, out[..k], out[k].idx) > quantum)
  {
    SlicesProperties(ps, quantum);
    RequeueRule(ps, quantum, Slices(ps, quantum), k);
  }

  /** The positions m, m + 1, ..., n - 1. */
  function Range(m: nat, n: nat): (r: seq<nat>)
    requires m <= n
    ensures |r| == n - m
    ensures forall j :: 0 <= j < n - m ==> r[j] == m + j
  {
    seq(n - m, j requires 0 <= j < n - m => m + j)
  }

  /** While no record needs more than a quantum, the queue is served in input
      order and every record leaves it after its first turn. */
  lemma {:induction false} OneTurnEachLoop(ps: seq<Process>, quantum: int, st: State)
    requires Wf(ps, quantum, st)
    requires forall i :: 0 <= i < |ps| ==> ps[i].burst <= quantum
    requires |st.out| <= |ps|
    requires st.queue == Range(|st.out|, |ps|)
    requires forall i :: |st.out| <= i < |ps| ==> st.rem[i] == ps[i].burst
    requires forall k :: 0 <= k < |st.out| ==> st.out[k].idx == k
    ensures |Loop(ps, quantum, st).out| == |ps|
    ensures forall k :: 0 <= k < |ps| ==> Loop(ps, quantum, st).out[k].idx == k
    decreases |ps| - |st.out|
  {
    if |st.queue| > 0 {
      var m := |st.out|;
      var st' := Step(ps, quantum, st);
      assert st.queue[0] == m;
      assert st' == State(st.time + st.rem[m], st.queue[1..], st.rem[m := 0],
                          st.out + [Slice(m, st.time, st.time + st.rem[m])]);
      assert st'.queue == Range(m + 1, |ps|);
      OneTurnEachLoop(ps, quantum, st');
    }
  }

  /** With a quantum no smaller than any burst, Round Robin runs the records
      once each, in input order. */
  lemma OneTurnEach(ps: seq<Process>, quantum: int)
    requires PositiveBursts(ps) && quantum > 0
    requires forall i :: 0 <= i < |ps| ==> ps[i].burst <= quantum
    ensures |Slices(ps, quantum)| == |ps|
    ensures forall k :: 0 <= k < |ps| ==> Slices(ps, quantum)[k].idx == k
  {
    InitTrace(ps, quantum);
    assert Init(ps).queue == Range(0, |ps|);
    OneTurnEachLoop(ps, quantum, Init(ps));
  }
}
