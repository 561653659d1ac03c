/**
  The order in which Round Robin serves the records, stated without a queue:
  round after round, each round running, in input order, every record that
  still has work, for the quantum or for what it has left if that is less.
  The queue simulation is proved to lay exactly these turns end to end.
 */
module RoundRobinRounds {
  import opened Processes
  import opened RoundRobin

  /** One turn on the CPU: the record served and for how long. */
  datatype Turn = Turn(idx: nat, length: int)

  /** The turns of a schedule, in order. */
  function Turns(out: seq<Slice>): (r: seq<Turn>)
    ensures |r| == |out|
    decreases |out|
  {
    if out == [] then [] else [Turn(out[0].idx, Length(out[0]))] + Turns(out[1..])
  }

  lemma Associative<T>(a: seq<T>, b: seq<T>, c: seq<T>)
    ensures (a + b) + c == a + (b + c)
  {
  }

  /** A row appended to a schedule adds its turn at the end. */
  lemma {:induction false} TurnsAppend(out: seq<Slice>, s: Slice)
    ensures Turns(out + [s]) == Turns(out) + [Turn(s.idx, Length(s))]
    decreases |out|
  {
    if out != [] {
      assert (out + [s])[1..] == out[1..] + [s];
      TurnsAppend(out[1..], s);
      Associative([Turn(out[0].idx, Length(out[0]))], Turns(out[1..]), [Turn(s.idx, Length(s))]);
    }
  }

  /** Turns laid end to end from time `t`. */
  function Timeline(turns: seq<Turn>, t: int): (r: seq<Slice>)
    ensures |r| == |turns|
    decreases |turns|
  {
    if turns == [] then []
    else [Slice(turns[0].idx, t, t + turns[0].length)] + Timeline(turns[1..], t + turns[0].length)
  }

  /** The largest burst (0 for no records): no record needs more. */
  function MaxBurst(ps: seq<Process>): (r: int)
    ensures forall i :: 0 <= i < |ps| ==> ps[i].burst <= r
  {
    if ps == [] then 0
    else
      var rest := MaxBurst(ps[1..]);
      if ps[0].burst > rest then ps[0].burst else rest
  }

  /** What a record of burst `burst` still needs once it has been served `level` units. */
  function Left(burst: int, level: int): int {
    if burst > level then burst - level else 0
  }

  /** The positions, from `lo` on and in input order, of the records that need
      more than `level` units. */
  function Active(ps: seq<Process>, level: int, lo: nat): (r: seq<nat>)
    requires lo <= |ps|
    ensures forall a :: 0 <= a < |r| ==> lo <= r[a] < |ps|
    decreases |ps| - lo
  {
    if lo == |ps| then []
    else (if ps[lo].burst > level then [lo] else []) + Active(ps, level, lo + 1)
  }

  /** Exactly the records that need more than `level` are active. */
  lemma {:induction false} ActiveMembers(ps: seq<Process>, level: int, lo: nat)
    requires lo <= |ps|
    ensures forall i :: i in Active(ps, level, lo) <==> lo <= i < |ps| && ps[i].burst > level
    decreases |ps| - lo
  {
    if lo < |ps| {
      ActiveMembers(ps, level, lo + 1);
    }
  }

  /** The round in which every record has already been served `level` units:
      each record from position `lo` on that needs more runs, in input order,
      for the quantum or for what it has left if that is less. */
  function Round(ps: seq<Process>, quantum: int, level: int, lo: nat): seq<Turn>
    requires lo <= |ps|
    decreases |ps| - lo
  {
    if lo == |ps| then []
    else (if ps[lo].burst > level then [Turn(lo, Min(quantum, ps[lo].burst - level))] else [])
         + Round(ps, quantum, level, lo + 1)
  }

  /** The rounds from the one at `level` on, until no record needs more. */
  function Rounds(ps: seq<Process>, quantum: int, level: int): seq<Turn>
    requires quantum > 0
    decreases MaxBurst(ps) - level
  {
    if forall i :: 0 <= i < |ps| ==> ps[i].burst <= level then []
    else Round(ps, quantum, level, 0) + Rounds(ps, quantum, level + quantum)
  }

  /** The members of `queue`, in queue order, that need more than a quantum:
      those that a pass over `queue` puts back at the tail. */
  function Requeued(queue: seq<nat>, rem: seq<int>, quantum: int): seq<nat>
    requires forall a :: 0 <= a < |queue| ==> queue[a] < |rem|
    decreases |queue|
  {
    if queue == [] then []
    else (if rem[queue[0]] > quantum then [queue[0]] else []) + Requeued(queue[1..], rem, quantum)
  }

  /** The turns of a pass over `queue`. */
  function Served(queue: seq<nat>, rem: seq<int>, quantum: int): seq<Turn>
    requires forall a :: 0 <= a < |queue| ==> queue[a] < |rem|
    decreases |queue|
  {
    if queue == [] then []
    else [Turn(queue[0], Min(quantum, rem[queue[0]]))] + Served(queue[1..], rem, quantum)
  }

  /** One iteration of the loop on the loop variables alone: the head runs for
      the quantum or for what it has left, and goes back to the tail if it
      needed more than a quantum. */
  function Serve(quantum: int, st: State): State {
    if st.queue == [] || st.queue[0] >= |st.rem| then st
    else
      var p := st.queue[0];
      var d := Min(quantum, st.rem[p]);
      State(st.time + d, st.queue[1..] + (if st.rem[p] > quantum then [p] else []),
            st.rem[p := st.rem[p] - d], st.out + [Slice(p, st.time, st.time + d)])
  }

  /** `n` iterations of the loop. */
  function Serves(quantum: int, st: State, n: nat): State
    decreases n
  {
    if n == 0 then st else Serves(quantum, Serve(quantum, st), n - 1)
  }

  lemma StepIsServe(ps: seq<Process>, quantum: int, st: State)
    requires Wf(ps, quantum, st) && |st.queue| > 0
    ensures Step(ps, quantum, st) == Serve(quantum, st)
  {
    StepFields(ps, quantum, st);
  }

  /** One iteration keeps the loop's invariant and does not change the state
      the loop ends in. */
  lemma LoopServe(ps: seq<Process>, quantum: int, st: State)
    requires Wf(ps, quantum, st) && |st.queue| > 0
    ensures Wf(ps, quantum, Serve(quantum, st))
    ensures |Serve(quantum, st).queue| >= |st.queue| - 1
    ensures Loop(ps, quantum, Serve(quantum, st)) == Loop(ps, quantum, st)
  {
    StepIsServe(ps, quantum, st);
    assert Loop(ps, quantum, st) == Loop(ps, quantum, Step(ps, quantum, st));
  }

  /** Serving `n` records of the queue keeps the loop's invariant. */
  lemma {:induction false} ServesKeepWf(ps: seq<Process>, quantum: int, st: State, n: nat)
    requires Wf(ps, quantum, st) && n <= |st.queue|
    ensures Wf(ps, quantum, Serves(quantum, st, n))
    decreases n
  {
    if n > 0 {
      var st' := Serve(quantum, st);
      LoopServe(ps, quantum, st);
      ServesKeepWf(ps, quantum, st', n - 1);
      assert Serves(quantum, st, n) == Serves(quantum, st', n - 1);
    }
  }

  /** Serving `n` records of the queue does not change the state the loop ends in. */
  lemma {:induction false} LoopServes(ps: seq<Process>, quantum: int, st: State, n: nat)
    requires Wf(ps, quantum, st) && n <= |st.queue|
    requires Wf(ps, quantum, Serves(quantum, st, n))
    ensures Loop(ps, quantum, Serves(quantum, st, n)) == Loop(ps, quantum, st)
    decreases n
  {
    if n > 0 {
      var st' := Serve(quantum, st);
      LoopServe(ps, quantum, st);
      assert Serves(quantum, st, n) == Serves(quantum, st', n - 1);
      LoopServes(ps, quantum, st', n - 1);
    }
  }

  /** A pass over `queue` looks at `rem` only at the members of `queue`. */
  lemma {:induction false} PassFrame(queue: seq<nat>, rem: seq<int>, rem': seq<int>, quantum: int)
    requires forall a :: 0 <= a < |queue| ==> queue[a] < |rem| && queue[a] < |rem'|
    requires forall a :: 0 <= a < |queue| ==> rem[queue[a]] == rem'[queue[a]]
    ensures Requeued(queue, rem, quantum) == Requeued(queue, rem', quantum)
    ensures Served(queue, rem, quantum) == Served(queue, rem', quantum)
    decreases |queue|
  {
    if queue != [] {
      PassFrame(queue[1..], rem, rem', quantum);
    }
  }

  /** `front` is the part of the queue still to be served in the current
      pass: it comes first and holds each position once, and every queued
      position has a working copy. */
  predicate PassReady(st: State, front: seq<nat>, back: seq<nat>) {
    && st.queue == front + back
    && DistinctPositions(front)
    && forall a :: 0 <= a < |st.queue| ==> st.queue[a] < |st.rem|
  }

  /** Serving the head of `front`: the rest of `front` is still to be served,
      ahead of `back` and, if the head needs more, the head. */
  lemma ServeHead(quantum: int, st: State, front: seq<nat>, back: seq<nat>)
    requires PassReady(st, front, back) && front != []
    ensures front[0] < |st.rem| && front[0] !in front[1..]
    ensures var p := front[0];
            var st' := Serve(quantum, st);
            && PassReady(st', front[1..], back + (if st.rem[p] > quantum then [p] else []))
            && st'.rem == st.rem[p := st.rem[p] - Min(quantum, st.rem[p])]
            && Turns(st'.out) == Turns(st.out) + [Turn(p, Min(quantum, st.rem[p]))]
  {
    var p := front[0];
    assert st.queue[0] == p;
    var head := if st.rem[p] > quantum then [p] else [];
    var st' := Serve(quantum, st);
    forall a | 0 <= a < |front| - 1 ensures front[1..][a] != p {
      assert front[1..][a] == front[a + 1];
    }
    assert st.queue[1..] == front[1..] + back;
    Associative(front[1..], back, head);
    assert forall a :: 0 <= a < |st'.queue| ==> st'.queue[a] in st.queue;
    TurnsAppend(st.out, Slice(p, st.time, st.time + Min(quantum, st.rem[p])));
  }

  /** Serving the front part of the queue, one record after another, leaves
      the rest of the queue ahead of the members that still need more. */
  lemma {:induction false} PassQueue(quantum: int, st: State, front: seq<nat>, back: seq<nat>)
    requires PassReady(st, front, back)
    ensures forall a :: 0 <= a < |front| ==> front[a] < |st.rem|
    ensures Serves(quantum, st, |front|).queue == back + Requeued(front, st.rem, quantum)
    decreases |front|
  {
    assert forall a :: 0 <= a < |front| ==> front[a] == st.queue[a];
    if front == [] {
      assert st.queue == back;
    } else {
      var p := front[0];
      var head := if st.rem[p] > quantum then [p] else [];
      var st' := Serve(quantum, st);
      ServeHead(quantum, st, front, back);
      PassQueue(quantum, st', front[1..], back + head);
      PassFrame(front[1..], st.rem, st'.rem, quantum);
      var requeued := Requeued(front[1..], st.rem, quantum);
      assert Requeued(front, st.rem, quantum) == head + requeued;
      Associative(back, head, requeued);
    }
  }

  /** Serving the front part of the queue gives each of its members the
      quantum or what it has left, and nobody else anything. */
  lemma {:induction false} PassRem(quantum: int, st: State, front: seq<nat>, back: seq<nat>)
    requires PassReady(st, front, back)
    ensures |Serves(quantum, st, |front|).rem| == |st.rem|
    ensures forall i :: 0 <= i < |st.rem| ==>
              Serves(quantum, st, |front|).rem[i]
                == if i in front then st.rem[i] - Min(quantum, st.rem[i]) else st.rem[i]
    decreases |front|
  {
    if front != [] {
      var p := front[0];
      var st' := Serve(quantum, st);
      ServeHead(quantum, st, front, back);
      PassRem(quantum, st', front[1..], back + (if st.rem[p] > quantum then [p] else []));
      forall i | 0 <= i < |st.rem|
        ensures Serves(quantum, st, |front|).rem[i]
                  == if i in front then st.rem[i] - Min(quantum, st.rem[i]) else st.rem[i]
      {
        assert i in front <==> i == p || i in front[1..];
      }
    }
  }

  /** Serving the front part of the queue appends the turns of a pass over it. */
  lemma {:induction false} PassTurns(quantum: int, st: State, front: seq<nat>, back: seq<nat>)
    requires PassReady(st, front, back)
    ensures forall a :: 0 <= a < |front| ==> front[a] < |st.rem|
    ensures Turns(Serves(quantum, st, |front|).out) == Turns(st.out) + Served(front, st.rem, quantum)
    decreases |front|
  {
    assert forall a :: 0 <= a < |front| ==> front[a] == st.queue[a];
    if front == [] {
      assert Turns(st.out) + [] == Turns(st.out);
    } else {
      var p := front[0];
      var turn := Turn(p, Min(quantum, st.rem[p]));
      var st' := Serve(quantum, st);
      ServeHead(quantum, st, front, back);
      PassTurns(quantum, st', front[1..], back + (if st.rem[p] > quantum then [p] else []));
      PassFrame(front[1..], st.rem, st'.rem, quantum);
      var served := Served(front[1..], st.rem, quantum);
      assert Served(front, st.rem, quantum) == [turn] + served;
      Associative(Turns(st.out), [turn], served);
    }
  }

  /** The loop state at the start of the round in which every record has
      already been served `level` units: the records that need more are queued
      in input order, and each has what is left of its burst. */
  predicate AtRound(ps: seq<Process>, quantum: int, st: State, level: int) {
    && Wf(ps, quantum, st)
    && st.queue == Active(ps, level, 0)
    && forall i :: 0 <= i < |ps| ==> st.rem[i] == Left(ps[i].burst, level)
  }

  /** A pass over the records needing more than `level` requeues those that
      need more than `level` plus a quantum. */
  lemma {:induction false} RequeuedActive(ps: seq<Process>, quantum: int, level: int, lo: nat, rem: seq<int>)
    requires lo <= |ps| && |rem| == |ps| && quantum > 0
    requires forall i :: 0 <= i < |ps| ==> rem[i] == Left(ps[i].burst, level)
    ensures Requeued(Active(ps, level, lo), rem, quantum) == Active(ps, level + quantum, lo)
    decreases |ps| - lo
  {
    if lo < |ps| {
      RequeuedActive(ps, quantum, level, lo + 1, rem);
      var rest := Active(ps, level, lo + 1);
      var head := if ps[lo].burst > level + quantum then [lo] else [];
      assert Requeued(Active(ps, level, lo), rem, quantum) == head + Requeued(rest, rem, quantum) by {
        if ps[lo].burst > level {
          var q := [lo] + rest;
          assert Active(ps, level, lo) == q;
          assert q[0] == lo && q[1..] == rest;
          assert rem[lo] > quantum <==> ps[lo].burst > level + quantum;
        } else {
          assert Active(ps, level, lo) == [] + rest == rest;
        }
      }
      assert Active(ps, level + quantum, lo) == head + Active(ps, level + quantum, lo + 1);
    }
  }

  /** A pass over the records needing more than `level` serves them as the
      round at `level` does. */
  lemma {:induction false} ServedActive(ps: seq<Process>, quantum: int, level: int, lo: nat, rem: seq<int>)
    requires lo <= |ps| && |rem| == |ps|
    requires forall i :: 0 <= i < |ps| ==> rem[i] == Left(ps[i].burst, level)
    ensures Served(Active(ps, level, lo), rem, quantum) == Round(ps, quantum, level, lo)
    decreases |ps| - lo
  {
    if lo < |ps| {
      ServedActive(ps, quantum, level, lo + 1, rem);
      var rest := Active(ps, level, lo + 1);
      var head := if ps[lo].burst > level then [Turn(lo, Min(quantum, ps[lo].burst - level))] else [];
      assert Served(Active(ps, level, lo), rem, quantum) == head + Served(rest, rem, quantum) by {
        if ps[lo].burst > level {
          var q := [lo] + rest;
          assert Active(ps, level, lo) == q;
          assert q[0] == lo && q[1..] == rest;
          assert Served(q, rem, quantum) == [Turn(lo, Min(quantum, rem[lo]))] + Served(rest, rem, quantum);
        } else {
          assert Active(ps, level, lo) == [] + rest == rest;
        }
      }
      assert Round(ps, quantum, level, lo) == head + Round(ps, quantum, level, lo + 1);
    }
  }

  /** One round takes the loop from the start of the round at `level` to the
      start of the next, emitting the round's turns. */
  lemma RoundSteps(ps: seq<Process>, quantum: int, st: State, level: int)
    requires AtRound(ps, quantum, st, level)
    ensures AtRound(ps, quantum, Serves(quantum, st, |st.queue|), level + quantum)
    ensures Turns(Serves(quantum, st, |st.queue|).out) == Turns(st.out) + Round(ps, quantum, level, 0)
  {
    assert st.queue == st.queue + [];
    assert PassReady(st, st.queue, []);
    PassQueue(quantum, st, st.queue, []);
    PassRem(quantum, st, st.queue, []);
    PassTurns(quantum, st, st.queue, []);
    ServesKeepWf(ps, quantum, st, |st.queue|);
    RequeuedActive(ps, quantum, level, 0, st.rem);
    ServedActive(ps, quantum, level, 0, st.rem);
    var r := Serves(quantum, st, |st.queue|);
    assert r.queue == [] + Active(ps, level + quantum, 0);
    ActiveMembers(ps, level, 0);
    forall i | 0 <= i < |ps| ensures r.rem[i] == Left(ps[i].burst, level + quantum) {
      assert i in st.queue <==> ps[i].burst > level;
    }
  }

  /** Some record needs more than `level`, so the largest burst exceeds it. */
  lemma BelowMaxBurst(ps: seq<Process>, level: int)
    requires !(forall i :: 0 <= i < |ps| ==> ps[i].burst <= level)
    ensures level < MaxBurst(ps)
  {
    var j :| 0 <= j < |ps| && ps[j].burst > level;
    assert ps[j].burst <= MaxBurst(ps);
  }

  /** The state at the start of the next round, after the round at `level`
      has emitted its turns. */
  function NextRound(ps: seq<Process>, quantum: int, st: State, level: int): (r: State)
    requires AtRound(ps, quantum, st, level)
    ensures AtRound(ps, quantum, r, level + quantum)
    ensures Turns(r.out) == Turns(st.out) + Round(ps, quantum, level, 0)
  {
    RoundSteps(ps, quantum, st, level);
    Serves(quantum, st, |st.queue|)
  }

  /** The loop run one whole round at a time from the start of the round at `level`. */
  function RoundByRound(ps: seq<Process>, quantum: int, st: State, level: int): State
    requires AtRound(ps, quantum, st, level)
    decreases MaxBurst(ps) - level
  {
    if forall i :: 0 <= i < |ps| ==> ps[i].burst <= level then st
    else
      BelowMaxBurst(ps, level);
      RoundByRound(ps, quantum, NextRound(ps, quantum, st, level), level + quantum)
  }

  /** Once no record needs more than `level`, none is active. */
  lemma {:induction false} NoneActive(ps: seq<Process>, level: int, lo: nat)
    requires lo <= |ps|
    requires forall i :: 0 <= i < |ps| ==> ps[i].burst <= level
    ensures Active(ps, level, lo) == []
    decreases |ps| - lo
  {
    if lo < |ps| {
      NoneActive(ps, level, lo + 1);
    }
  }

  /** Running round by round emits the rounds from `level` on. */
  lemma {:induction false} RoundByRoundTurns(ps: seq<Process>, quantum: int, st: State, level: int)
    requires AtRound(ps, quantum, st, level)
    ensures Turns(RoundByRound(ps, quantum, st, level).out) == Turns(st.out) + Rounds(ps, quantum, level)
    decreases MaxBurst(ps) - level
  {
    if forall i :: 0 <= i < |ps| ==> ps[i].burst <= level {
      assert Turns(st.out) + [] == Turns(st.out);
    } else {
      BelowMaxBurst(ps, level);
      var r := NextRound(ps, quantum, st, level);
      RoundByRoundTurns(ps, quantum, r, level + quantum);
      Associative(Turns(st.out), Round(ps, quantum, level, 0), Rounds(ps, quantum, level + quantum));
    }
  }

  /** Running round by round is running the loop. */
  lemma {:induction false} RoundByRoundIsLoop(ps: seq<Process>, quantum: int, st: State, level: int)
    requires AtRound(ps, quantum, st, level)
    ensures RoundByRound(ps, quantum, st, level) == Loop(ps, quantum, st)
    decreases MaxBurst(ps) - level
  {
    if forall i :: 0 <= i < |ps| ==> ps[i].burst <= level {
      NoneActive(ps, level, 0);
    } else {
      BelowMaxBurst(ps, level);
      var r := NextRound(ps, quantum, st, level);
      RoundByRoundIsLoop(ps, quantum, r, level + quantum);
      assert RoundByRound(ps, quantum, st, level) == Loop(ps, quantum, r);
      assert r == Serves(quantum, st, |st.queue|);
      LoopServes(ps, quantum, st, |st.queue|);
    }
  }

  /** With positive bursts every record needs more than 0 units. */
  lemma {:induction false} ActiveFromStart(ps: seq<Process>, lo: nat)
    requires PositiveBursts(ps) && lo <= |ps|
    ensures Active(ps, 0, lo) == Range(lo, |ps|)
    decreases |ps| - lo
  {
    if lo < |ps| {
      ActiveFromStart(ps, lo + 1);
      assert Range(lo, |ps|) == [lo] + Range(lo + 1, |ps|);
    }
  }

  /** The loop starts at the start of the first round. */
  lemma InitAtRound(ps: seq<Process>, quantum: int)
    requires PositiveBursts(ps) && quantum > 0
    ensures AtRound(ps, quantum, Init(ps), 0)
  {
    InitTrace(ps, quantum);
    ActiveFromStart(ps, 0);
    assert Range(0, |ps|) == Positions(|ps|);
  }

  /** A schedule whose rows follow one another without gaps from time `t` is
      its own turns laid end to end from `t`. */
  lemma {:induction false} TimelineOfTurns(out: seq<Slice>, t: int)
    requires |out| > 0 ==> out[0].start == t
    requires forall k :: 0 < k < |out| ==> out[k - 1].end == out[k].start
    ensures Timeline(Turns(out), t) == out
    decreases |out|
  {
    if out != [] {
      var rest := out[1..];
      var turns := Turns(out);
      assert turns == [Turn(out[0].idx, Length(out[0]))] + Turns(rest);
      assert turns[0] == Turn(out[0].idx, Length(out[0])) && turns[1..] == Turns(rest);
      forall k | 0 < k < |rest| ensures rest[k - 1].end == rest[k].start {
        assert rest[k - 1] == out[k] && rest[k] == out[k + 1];
      }
      TimelineOfTurns(rest, out[0].end);
      assert Timeline(turns, t) == [Slice(out[0].idx, t, out[0].end)] + Timeline(Turns(rest), out[0].end);
      assert out == [out[0]] + rest;
    }
  }

  /** Round Robin serves the records round by round: round `r` runs, in input
      order, every record whose burst exceeds `r` quanta, for a quantum or for
      what it has left if that is less; the schedule is these turns laid end
      to end from time 0. */
  lemma SlicesFollowRounds(ps: seq<Process>, quantum: int)
    requires PositiveBursts(ps) && quantum > 0
    ensures Slices(ps, quantum) == Timeline(Rounds(ps, quantum, 0), 0)
  {
    InitAtRound(ps, quantum);
    RoundByRoundTurns(ps, quantum, Init(ps), 0);
    RoundByRoundIsLoop(ps, quantum, Init(ps), 0);
    assert Turns(Init(ps).out) + Rounds(ps, quantum, 0) == Rounds(ps, quantum, 0);
    SlicesProperties(ps, quantum);
    TimelineOfTurns(Slices(ps, quantum), 0);
  }

  /** With quantum 2, a record of burst 3 and one of burst 1 run as
      [0, 2) for the first, [2, 3) for the second, then [3, 4) for the first:
      the first went to the back of the queue behind the second. */
  lemma FifoExample(ps: seq<Process>)
    requires ps == [Process(1, 0, 3), Process(2, 0, 1)]
    ensures Slices(ps, 2) == [Slice(0, 0, 2), Slice(1, 2, 3), Slice(0, 3, 4)]
  {
    SlicesFollowRounds(ps, 2);
    assert Round(ps, 2, 0, 2) == [] && Round(ps, 2, 2, 2) == [];
    assert Round(ps, 2, 0, 1) == [Turn(1, 1)] + Round(ps, 2, 0, 2);
    assert Round(ps, 2, 0, 0) == [Turn(0, 2)] + Round(ps, 2, 0, 1);
    assert Round(ps, 2, 2, 1) == [] + Round(ps, 2, 2, 2);
    assert Round(ps, 2, 2, 0) == [Turn(0, 1)] + Round(ps, 2, 2, 1);
    assert Rounds(ps, 2, 4) == [];
    assert Rounds(ps, 2, 2) == [Turn(0, 1)];
    var turns := [Turn(0, 2), Turn(1, 1), Turn(0, 1)];
    assert Rounds(ps, 2, 0) == turns;
    assert turns[1..] == [Turn(1, 1), Turn(0, 1)] && turns[1..][1..] == [Turn(0, 1)];
    assert Timeline([Turn(0, 1)], 3) == [Slice(0, 3, 4)];
    assert Timeline(turns[1..], 2) == [Slice(1, 2, 3)] + Timeline([Turn(0, 1)], 3);
    assert Timeline(turns, 0) == [Slice(0, 0, 2)] + Timeline(turns[1..], 2);
  }
}
