/**
  First Come First Served. The records are sorted by arrival time with a
  stable sort (equal arrivals keep their input order); then, in that order,
  each record starts when both the CPU is free and it has arrived, and runs
  for its whole burst.
 */
module FirstComeFirstServed {
  import opened Processes

  // ---------------------------------------------------------------------------
  // The stable sort by arrival time
  // ---------------------------------------------------------------------------

  predicate SortedByArrival(s: seq<Process>) {
    forall i, j :: 0 <= i < j < |s| ==> s[i].arrival <= s[j].arrival
  }

  /** The records of `s` that arrive at `a`, in their order in `s`. */
  function ArrivingAt(s: seq<Process>, a: int): seq<Process> {
    if s == [] then []
    else (if s[0].arrival == a then [s[0]] else []) + ArrivingAt(s[1..], a)
  }

  /** Puts `x` in front of the first record of `s` that does not arrive strictly earlier. */
  function Insert(x: Process, s: seq<Process>): (r: seq<Process>)
    ensures multiset(r) == multiset([x] + s)
  {
    if s == [] || x.arrival <= s[0].arrival then [x] + s
    else
      assert s == [s[0]] + s[1..];
      [s[0]] + Insert(x, s[1..])
  }

  lemma ConsSorted(y: Process, r: seq<Process>)
    requires SortedByArrival(r)
    requires forall p :: p in r ==> y.arrival <= p.arrival
    ensures SortedByArrival([y] + r)
  {
    var full := [y] + r;
    forall i, j | 0 <= i < j < |full| ensures full[i].arrival <= full[j].arrival {
      if i == 0 {
        assert full[j] in r;
      } else {
        assert full[i] == r[i - 1] && full[j] == r[j - 1];
      }
    }
  }

  lemma {:induction false} InsertSorted(x: Process, s: seq<Process>)
    requires SortedByArrival(s)
    ensures SortedByArrival(Insert(x, s))
  {
    if s != [] && x.arrival > s[0].arrival {
      var y, t := s[0], s[1..];
      assert SortedByArrival(t);
      InsertSorted(x, t);
      var r := Insert(x, t);
      forall p | p in r ensures y.arrival <= p.arrival {
        assert p in multiset([x] + t);
        if p != x {
          assert p in s;
          SortedHeadFirst(s, p);
        }
      }
      ConsSorted(y, r);
      assert Insert(x, s) == [y] + r;
    } else {
      forall p | p in s ensures x.arrival <= p.arrival {
        SortedHeadFirst(s, p);
      }
      ConsSorted(x, s);
    }
  }

  function Keep(p: Process, a: int): seq<Process> {
    if p.arrival == a then [p] else []
  }

  lemma ArrivingAtCons(p: Process, s: seq<Process>, a: int)
    ensures ArrivingAt([p] + s, a) == Keep(p, a) + ArrivingAt(s, a)
  {
    assert ([p] + s)[1..] == s;
  }

  lemma {:induction false} InsertStable(x: Process, s: seq<Process>, a: int)
    requires SortedByArrival(s)
    ensures ArrivingAt(Insert(x, s), a) == ArrivingAt([x] + s, a)
  {
    if s != [] && x.arrival > s[0].arrival {
      var y, t := s[0], s[1..];
      assert s == [y] + t;
      calc {
        ArrivingAt(Insert(x, s), a);
        ArrivingAt([y] + Insert(x, t), a);
        { ArrivingAtCons(y, Insert(x, t), a); }
        Keep(y, a) + ArrivingAt(Insert(x, t), a);
        { InsertStable(x, t, a); }
        Keep(y, a) + ArrivingAt([x] + t, a);
        { ArrivingAtCons(x, t, a); }
        Keep(y, a) + (Keep(x, a) + ArrivingAt(t, a));
        // y arrives strictly before x, so at most one of them arrives at `a`
        Keep(x, a) + (Keep(y, a) + ArrivingAt(t, a));
        { ArrivingAtCons(y, t, a); }
        Keep(x, a) + ArrivingAt(s, a);
        { ArrivingAtCons(x, s, a); }
        ArrivingAt([x] + s, a);
      }
    }
  }

  /** `processes.sort((a, b) => a.arrivalTime - b.arrivalTime)` with a stable sort:
      the result is ordered by arrival, and for every arrival time the records
      arriving then appear in their input order (so it is a permutation). */
  function SortByArrival(ps: seq<Process>): (r: seq<Process>)
    ensures SortedByArrival(r)
    ensures forall a :: ArrivingAt(r, a) == ArrivingAt(ps, a)
    ensures multiset(r) == multiset(ps)
  {
    if ps == [] then []
    else
      var rest := SortByArrival(ps[1..]);
      InsertSorted(ps[0], rest);
      InsertArrivals(ps, rest);
      assert ps == [ps[0]] + ps[1..];
      Insert(ps[0], rest)
  }

  /** Inserting the head into a stable sort of the tail keeps every arrival group in input order. */
  lemma InsertArrivals(ps: seq<Process>, rest: seq<Process>)
    requires ps != [] && SortedByArrival(rest)
    requires forall a :: ArrivingAt(rest, a) == ArrivingAt(ps[1..], a)
    ensures forall a :: ArrivingAt(Insert(ps[0], rest), a) == ArrivingAt(ps, a)
  {
    forall a ensures ArrivingAt(Insert(ps[0], rest), a) == ArrivingAt(ps, a) {
      InsertStable(ps[0], rest, a);
      assert ([ps[0]] + rest)[1..] == rest;
    }
  }

  lemma {:induction false} MemberArriving(s: seq<Process>, p: Process)
    ensures p in s <==> p in ArrivingAt(s, p.arrival)
  {
    if s != [] {
      MemberArriving(s[1..], p);
      assert s == [s[0]] + s[1..];
    }
  }

  lemma SortedHeadFirst(r: seq<Process>, p: Process)
    requires SortedByArrival(r) && p in r
    ensures r[0].arrival <= p.arrival
  {
    var i :| 0 <= i < |r| && r[i] == p;
    if i > 0 {
      assert r[0].arrival <= r[i].arrival;
    }
  }

  lemma SameEmptiness(r1: seq<Process>, r2: seq<Process>)
    requires forall a :: ArrivingAt(r1, a) == ArrivingAt(r2, a)
    ensures r1 == [] <==> r2 == []
  {
    if r1 != [] {
      assert ArrivingAt(r1, r1[0].arrival) != [];
      assert ArrivingAt(r2, r1[0].arrival) != [];
    }
    if r2 != [] {
      assert ArrivingAt(r2, r2[0].arrival) != [];
      assert ArrivingAt(r1, r2[0].arrival) != [];
    }
  }

  lemma SameMembers(r1: seq<Process>, r2: seq<Process>, p: Process)
    requires forall a :: ArrivingAt(r1, a) == ArrivingAt(r2, a)
    ensures p in r1 <==> p in r2
  {
    MemberArriving(r1, p);
    MemberArriving(r2, p);
    assert ArrivingAt(r1, p.arrival) == ArrivingAt(r2, p.arrival);
  }

  lemma HeadArrivesFirst(r: seq<Process>)
    requires r != []
    ensures ArrivingAt(r, r[0].arrival) != [] && ArrivingAt(r, r[0].arrival)[0] == r[0]
  {
    assert ArrivingAt(r, r[0].arrival) == [r[0]] + ArrivingAt(r[1..], r[0].arrival);
  }

  lemma HeadsAgree(r1: seq<Process>, r2: seq<Process>)
    requires SortedByArrival(r1) && SortedByArrival(r2)
    requires forall a :: ArrivingAt(r1, a) == ArrivingAt(r2, a)
    requires r1 != [] && r2 != []
    ensures r1[0] == r2[0]
  {
    var x1, x2 := r1[0], r2[0];
    SameMembers(r1, r2, x1);
    SameMembers(r1, r2, x2);
    SortedHeadFirst(r1, x2);
    SortedHeadFirst(r2, x1);
    assert x1.arrival == x2.arrival;
    HeadArrivesFirst(r1);
    HeadArrivesFirst(r2);
    assert ArrivingAt(r1, x1.arrival) == ArrivingAt(r2, x2.arrival);
  }

  lemma TailsAgree(r1: seq<Process>, r2: seq<Process>, b: int)
    requires forall a :: ArrivingAt(r1, a) == ArrivingAt(r2, a)
    requires r1 != [] && r2 != [] && r1[0] == r2[0]
    ensures ArrivingAt(r1[1..], b) == ArrivingAt(r2[1..], b)
  {
    var x := r1[0];
    assert r1 == [x] + r1[1..] && r2 == [x] + r2[1..];
    ArrivingAtCons(x, r1[1..], b);
    ArrivingAtCons(x, r2[1..], b);
    assert ArrivingAt(r1, b) == ArrivingAt(r2, b);
    if x.arrival == b {
      assert ([x] + ArrivingAt(r1[1..], b))[1..] == ArrivingAt(r1[1..], b);
      assert ([x] + ArrivingAt(r2[1..], b))[1..] == ArrivingAt(r2[1..], b);
    } else {
      assert [] + ArrivingAt(r1[1..], b) == ArrivingAt(r1[1..], b);
      assert [] + ArrivingAt(r2[1..], b) == ArrivingAt(r2[1..], b);
    }
  }

  /** Sorting by arrival stably has exactly one result: two arrival-ordered
      sequences that list the records of every arrival time in the same order
      are equal. */
  lemma {:induction false} StableSortUnique(r1: seq<Process>, r2: seq<Process>)
    requires SortedByArrival(r1) && SortedByArrival(r2)
    requires forall a :: ArrivingAt(r1, a) == ArrivingAt(r2, a)
    ensures r1 == r2
    decreases |r1|
  {
    SameEmptiness(r1, r2);
    if r1 != [] {
      HeadsAgree(r1, r2);
      forall b ensures ArrivingAt(r1[1..], b) == ArrivingAt(r2[1..], b) {
        TailsAgree(r1, r2, b);
      }
      StableSortUnique(r1[1..], r2[1..]);
      assert r1 == [r1[0]] + r1[1..] && r2 == [r2[0]] + r2[1..];
    }
  }

  /** The sort is the stable sort: any arrival-ordered rearrangement that keeps
      the input order among equal arrivals is its result. In particular a
      sequence already ordered by arrival is left as it is, so sorting the
      array `fcfs` has already sorted in place changes nothing. */
  lemma SortByArrivalCharacterized(ps: seq<Process>, r: seq<Process>)
    requires SortedByArrival(r)
    requires forall a :: ArrivingAt(r, a) == ArrivingAt(ps, a)
    ensures SortByArrival(ps) == r
  {
    StableSortUnique(SortByArrival(ps), r);
  }

  lemma {:induction false} SortedIsFixedPoint(ps: seq<Process>)
    requires SortedByArrival(ps)
    ensures SortByArrival(ps) == ps
  {
    SortByArrivalCharacterized(ps, ps);
  }

  // ---------------------------------------------------------------------------
  // Running the sorted records
  // ---------------------------------------------------------------------------

  function Max(a: int, b: int): int {
    if a >= b then a else b
  }

  /** The loop variables of the `forEach`: the clock and the schedule so far;
      the next record to run is the one at position `|out|`. */
  datatype State = State(time: int, out: seq<Slice>)

  /** Runs the records of `s` from position `|st.out|` on, in order. */
  function Loop(s: seq<Process>, st: State): (r: State)
    requires |st.out| <= |s|
    ensures |r.out| == |s|
    decreases |s| - |st.out|
  {
    if |st.out| == |s| then st
    else
      var k := |st.out|;
      var start := Max(st.time, s[k].arrival);
      var end := start + s[k].burst;
      Loop(s, State(end, st.out + [Slice(k, start, end)]))
  }

  /** Row `sl` as FCFS emits it after the rows `prefix`: it runs the next
      record in order, from the later of the previous row's end (0 for the
      first row) and the record's arrival, for the record's whole burst. */
  predicate FcfsRow(s: seq<Process>, prefix: seq<Slice>, sl: Slice) {
    && sl.idx == |prefix|
    && sl.idx < |s|
    && sl.start == Max(PrevEnd(prefix), s[sl.idx].arrival)
    && Length(sl) == s[sl.idx].burst
  }

  /** Row `k` of `out` is the one FCFS emits after the rows before it. */
  predicate RowAt(s: seq<Process>, out: seq<Slice>, k: int)
    requires 0 <= k < |out|
  {
    FcfsRow(s, out[..k], out[k])
  }

  predicate Rows(s: seq<Process>, out: seq<Slice>) {
    forall k :: 0 <= k < |out| ==> RowAt(s, out, k)
  }

  lemma {:induction false} LoopRows(s: seq<Process>, st: State)
    requires |st.out| <= |s|
    requires PrevEnd(st.out) == st.time
    requires Rows(s, st.out)
    ensures Rows(s, Loop(s, st).out)
    decreases |s| - |st.out|
  {
    if |st.out| < |s| {
      var k := |st.out|;
      var start := Max(st.time, s[k].arrival);
      var sl := Slice(k, start, start + s[k].burst);
      var out' := st.out + [sl];
      forall m | 0 <= m < |out'| ensures RowAt(s, out', m) {
        if m < k {
          assert out'[..m] == st.out[..m];
          assert RowAt(s, st.out, m);
        } else {
          assert out'[..m] == st.out;
        }
      }
      LoopRows(s, State(start + s[k].burst, out'));
    }
  }

  /** The rows for records that are already in arrival order. */
  function Slices(s: seq<Process>): (r: seq<Slice>)
    ensures |r| == |s|
    ensures Rows(s, r)
  {
    LoopRows(s, State(0, []));
    Loop(s, State(0, [])).out
  }

  /** Row k is the only row of record k, so every record gets its burst exactly once. */
  lemma {:induction false} RowsOnce(s: seq<Process>, out: seq<Slice>)
    requires Rows(s, out)
    ensures IndicesIn(out, |s|)
    ensures forall k :: 0 <= k < |out| ==> out[k].idx == k
    ensures forall i :: 0 <= i < |out| ==> Count(out, i) == 1 && Work(out, i) == s[i].burst
    ensures forall i :: |out| <= i ==> Count(out, i) == 0 && Work(out, i) == 0
  {
    if out != [] {
      var n := |out| - 1;
      var pre := out[..n];
      assert Rows(s, pre) by {
        forall k | 0 <= k < |pre| ensures RowAt(s, pre, k) {
          assert pre[..k] == out[..k];
          assert RowAt(s, out, k);
        }
      }
      RowsOnce(s, pre);
      assert RowAt(s, out, n);
      assert out == pre + [out[n]];
      forall i ensures Count(out, i) == Count(pre, i) + (if i == n then 1 else 0) {
        WorkAppend(pre, out[n], i);
      }
    }
  }

  /** With positive bursts the rows never overlap and none starts before its record arrives. */
  lemma RowsTiming(s: seq<Process>, out: seq<Slice>)
    requires PositiveBursts(s)
    requires Rows(s, out) && |out| <= |s|
    ensures Chained(out)
    ensures forall k :: 0 <= k < |out| ==> s[k].arrival <= out[k].start
  {
    forall k | 0 < k < |out| ensures out[k - 1].end <= out[k].start {
      assert RowAt(s, out, k);
      assert out[..k][k - 1] == out[k - 1];
    }
    if |out| > 0 {
      assert RowAt(s, out, 0);
    }
    forall k | 0 <= k < |out| ensures s[k].arrival <= out[k].start < out[k].end {
      assert RowAt(s, out, k);
    }
  }

  /** Total burst of the records at positions j .. k - 1. */
  function BurstsBetween(s: seq<Process>, j: int, k: int): int
    requires 0 <= j <= k <= |s|
    decreases k - j
  {
    if j == k then 0 else BurstsBetween(s, j, k - 1) + s[k - 1].burst
  }

  /** Closed form of FCFS completion times: row k ends at the latest of the
      total work of records 0..k started at time 0 and, for each j <= k, the
      arrival of record j plus the work of records j..k. The CPU is never idle
      while a sorted record that has arrived is waiting. */
  lemma {:induction false} CompletionClosedForm(s: seq<Process>, out: seq<Slice>, k: int)
    requires Rows(s, out) && |out| <= |s|
    requires 0 <= k < |out|
    ensures out[k].end >= BurstsBetween(s, 0, k + 1)
    ensures forall j :: 0 <= j <= k ==> out[k].end >= s[j].arrival + BurstsBetween(s, j, k + 1)
    ensures || out[k].end == BurstsBetween(s, 0, k + 1)
            || exists j :: 0 <= j <= k && out[k].end == s[j].arrival + BurstsBetween(s, j, k + 1)
  {
    assert RowAt(s, out, k);
    if k > 0 {
      CompletionClosedForm(s, out, k - 1);
      assert out[..k][k - 1] == out[k - 1];
      assert PrevEnd(out[..k]) == out[k - 1].end;
      if out[k - 1].end < s[k].arrival {
        assert out[k].end == s[k].arrival + BurstsBetween(s, k, k + 1);
      }
    }
  }

  lemma SortKeepsPositiveBursts(ps: seq<Process>)
    requires PositiveBursts(ps)
    ensures PositiveBursts(SortByArrival(ps))
  {
    var s := SortByArrival(ps);
    forall k | 0 <= k < |s| ensures s[k].burst > 0 {
      assert s[k] in multiset(ps);
    }
  }

  /** The schedule `fcfs` returns, over the records it has sorted in place. */
  function Schedule(ps: seq<Process>): (r: seq<Entry>)
    ensures |r| == |ps|
    ensures forall k :: 0 <= k < |r| ==>
              var sl := Slices(SortByArrival(ps))[k];
              r[k] == Entry(SortByArrival(ps)[k].pid, sl.start, sl.end)
  {
    var s := SortByArrival(ps);
    assert |s| == |multiset(s)| == |ps|;
    RowsOnce(s, Slices(s));
    ToEntries(s, Slices(s))
  }

  /** `fcfs` leaves the caller's array sorted; running it again on that array
      sorts nothing and emits the same schedule. */
  lemma RerunIsIdentical(ps: seq<Process>)
    ensures SortByArrival(SortByArrival(ps)) == SortByArrival(ps)
    ensures Schedule(SortByArrival(ps)) == Schedule(ps)
  {
    SortedIsFixedPoint(SortByArrival(ps));
  }

  /** Each row starts at the later of the previous row's end (0 for the
      first) and its record's arrival. */
  lemma RowsStart(s: seq<Process>, out: seq<Slice>)
    requires Rows(s, out) && |out| <= |s|
    ensures |out| > 0 ==> out[0].start == Max(0, s[0].arrival)
    ensures forall k :: 0 < k < |out| ==> out[k].start == Max(out[k - 1].end, s[k].arrival)
  {
    forall k | 0 < k < |out| ensures out[k].start == Max(out[k - 1].end, s[k].arrival) {
      assert RowAt(s, out, k);
      assert out[..k][k - 1] == out[k - 1];
    }
    if |out| > 0 {
      assert RowAt(s, out, 0);
    }
  }

  lemma RowsLast(s: seq<Process>, out: seq<Slice>)
    requires Rows(s, out) && |out| <= |s|
    ensures forall k :: 0 <= k < |out| ==> out[k].end - out[k].start == s[k].burst
  {
    forall k | 0 <= k < |out| ensures out[k].end - out[k].start == s[k].burst {
      assert RowAt(s, out, k);
    }
  }

  lemma EntriesDurations(s: seq<Process>, out: seq<Slice>)
    requires Rows(s, out) && |out| == |s|
    ensures IndicesIn(out, |s|)
    ensures var r := ToEntries(s, out);
            && (forall k :: 0 <= k < |r| ==> r[k].pid == s[k].pid)
            && (forall k :: 0 <= k < |r| ==> r[k].end - r[k].start == s[k].burst)
            && (forall k :: 0 <= k < |r| ==> s[k].arrival <= r[k].start)
  {
    RowsOnce(s, out);
    RowsLast(s, out);
    forall k | 0 <= k < |out| ensures s[k].arrival <= out[k].start {
      assert RowAt(s, out, k);
    }
  }

  lemma EntriesStarts(s: seq<Process>, out: seq<Slice>)
    requires Rows(s, out) && |out| == |s|
    ensures IndicesIn(out, |s|)
    ensures var r := ToEntries(s, out);
            && (|r| > 0 ==> r[0].start == Max(0, s[0].arrival))
            && (forall k :: 0 < k < |r| ==> r[k].start == Max(r[k - 1].end, s[k].arrival))
            && (forall k :: 0 < k < |r| ==> r[k - 1].end <= r[k].start)
  {
    RowsOnce(s, out);
    RowsStart(s, out);
  }

  /** FCFS emits one entry per process, in arrival order (equal arrivals in
      input order); each lasts its process's burst and starts no earlier than
      its arrival. */
  lemma ScheduleOrder(ps: seq<Process>)
    ensures var s, r := SortByArrival(ps), Schedule(ps);
            && |r| == |s| == |ps|
            && SortedByArrival(s)
            && (forall k :: 0 <= k < |r| ==> r[k].pid == s[k].pid)
            && (forall k :: 0 <= k < |r| ==> r[k].end - r[k].start == s[k].burst)
            && (forall k :: 0 <= k < |r| ==> s[k].arrival <= r[k].start)
  {
    var s := SortByArrival(ps);
    EntriesDurations(s, Slices(s));
  }

  /** Each FCFS entry starts at the later of the previous entry's end (0 for
      the first) and its process's arrival, so entries never overlap. */
  lemma ScheduleTiming(ps: seq<Process>)
    ensures var s, r := SortByArrival(ps), Schedule(ps);
            && |r| == |s|
            && (|r| > 0 ==> r[0].start == Max(0, s[0].arrival))
            && (forall k :: 0 < k < |r| ==> r[k].start == Max(r[k - 1].end, s[k].arrival))
            && (forall k :: 0 < k < |r| ==> r[k - 1].end <= r[k].start)
  {
    var s := SortByArrival(ps);
    EntriesStarts(s, Slices(s));
  }

  lemma DistinctCons(y: Process, r: seq<Process>)
    requires DistinctPids(r)
    requires forall p :: p in r ==> p.pid != y.pid
    ensures DistinctPids([y] + r)
  {
    var full := [y] + r;
    forall a, b | 0 <= a < b < |full| ensures full[a].pid != full[b].pid {
      if a > 0 {
        assert full[a] == r[a - 1] && full[b] == r[b - 1];
      } else {
        assert full[b] in r;
      }
    }
  }

  lemma HeadPidUnique(s: seq<Process>)
    requires DistinctPids(s) && s != []
    ensures DistinctPids(s[1..])
    ensures forall p :: p in s[1..] ==> p.pid != s[0].pid
  {
    forall p | p in s[1..] ensures p.pid != s[0].pid {
      var j :| 0 <= j < |s[1..]| && s[1..][j] == p;
      assert s[j + 1] == p;
    }
  }

  lemma InsertDistinct(x: Process, s: seq<Process>)
    requires DistinctPids(s)
    requires forall p :: p in s ==> p.pid != x.pid
    ensures DistinctPids(Insert(x, s))
    decreases |s|
  {
    if s != [] && x.arrival > s[0].arrival {
      var t := s[1..];
      HeadPidUnique(s);
      assert forall p :: p in t ==> p in s;
      InsertDistinct(x, t);
      var r := Insert(x, t);
      forall p | p in r ensures p.pid != s[0].pid {
        assert p in multiset([x] + t);
      }
      DistinctCons(s[0], r);
    }
  }

  /** Sorting in place keeps the pids distinct. */
  lemma SortKeepsDistinctPids(ps: seq<Process>)
    requires DistinctPids(ps)
    ensures DistinctPids(SortByArrival(ps))
    decreases |ps|
  {
    if ps != [] {
      var t := ps[1..];
      SortKeepsDistinctPids(t);
      var rest := SortByArrival(t);
      forall p | p in rest ensures p.pid != ps[0].pid {
        assert p in multiset(t);
        var j :| 0 <= j < |t| && t[j] == p;
        assert ps[j + 1] == p;
      }
      InsertDistinct(ps[0], rest);
    }
  }
}
