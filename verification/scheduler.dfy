/**
  The entry point: run the chosen policy over the parsed records, then compute
  turnaround and waiting times over the schedule and the (possibly reordered)
  records, as `calculateSchedule` does. Also the properties that hold across
  policies: every process gets exactly its burst, only Round Robin can start a
  process before it arrives, and the sign of the metrics.
 */
module Scheduler {
  import opened Wrappers
  import opened Processes
  import FirstComeFirstServed
  import GreedySpec
  import ShortestJobFirst
  import ShortestRemainingFirst
  import RoundRobin
  import RoundRobinRounds
  import Metrics

  /** The value of the algorithm selector; Round Robin carries its time quantum. */
  datatype Policy = Fcfs | Sjf | Srtf | Rr(quantum: int)

  /** What the run hands back: the schedule, the records in the order the
      metrics read them (FCFS sorts them in place), and the metrics. */
  datatype Outcome = Outcome(schedule: seq<Entry>, processes: seq<Process>, report: Metrics.Report)

  /** Parsing produced no records, so nothing is scheduled. */
  datatype ScheduleError = EmptyInput

  /** The inputs each policy is modelled on. For SJF and SRTF these are
      exactly the inputs on which the loop ends: a record whose burst is not
      positive is never available, so `completed` never reaches the number of
      records. Round Robin's loop ends on every input with a positive
      quantum, but the model also asks for positive bursts: a record with a
      burst of 0 or less would get one entry of that length and leave the
      queue, which the model does not cover. */
  predicate Modelled(ps: seq<Process>, policy: Policy) {
    match policy
    case Fcfs => true
    case Sjf => PositiveBursts(ps)
    case Srtf => PositiveBursts(ps)
    case Rr(quantum) => PositiveBursts(ps) && quantum > 0
  }

  /** The records as they stand after the policy ran: FCFS sorted them by arrival. */
  function Records(ps: seq<Process>, policy: Policy): (r: seq<Process>)
    ensures |r| == |ps| && multiset(r) == multiset(ps)
  {
    if policy.Fcfs? then
      var s := FirstComeFirstServed.SortByArrival(ps);
      assert |s| == |multiset(s)| == |ps|;
      s
    else ps
  }

  /** The rows the policy emits, with records named by position in `Records`. */
  function Rows(ps: seq<Process>, policy: Policy): seq<Slice>
    requires Modelled(ps, policy)
  {
    match policy
    case Fcfs => FirstComeFirstServed.Slices(Records(ps, policy))
    case Sjf => ShortestJobFirst.Slices(ps)
    case Srtf => ShortestRemainingFirst.Slices(ps)
    case Rr(quantum) => RoundRobin.Slices(ps, quantum)
  }

  /** Entries that carry, row by row, the pid of the row's record and the
      row's times are the rows named by pid. */
  lemma NamedRows(s: seq<Process>, out: seq<Slice>, r: seq<Entry>)
    requires |r| == |out|
    requires forall k :: 0 <= k < |r| ==> out[k].idx < |s| && r[k] == Entry(s[out[k].idx].pid, out[k].start, out[k].end)
    ensures IndicesIn(out, |s|) && r == ToEntries(s, out)
  {
  }

  /** The ternary chain choosing the scheduling function. Whichever function
      it picks, the schedule has one entry per row of the policy, naming the
      row's record by pid, over the records as they stand after the run. */
  function Dispatch(ps: seq<Process>, policy: Policy): (r: seq<Entry>)
    requires Modelled(ps, policy)
    ensures IndicesIn(Rows(ps, policy), |Records(ps, policy)|)
    ensures r == ToEntries(Records(ps, policy), Rows(ps, policy))
  {
    match policy
    case Fcfs =>
      var s := Records(ps, policy);
      FirstComeFirstServed.RowsOnce(s, FirstComeFirstServed.Slices(s));
      NamedRows(s, FirstComeFirstServed.Slices(s), FirstComeFirstServed.Schedule(ps));
      FirstComeFirstServed.Schedule(ps)
    case Sjf =>
      NamedRows(ps, ShortestJobFirst.Slices(ps), ShortestJobFirst.Schedule(ps));
      ShortestJobFirst.Schedule(ps)
    case Srtf =>
      NamedRows(ps, ShortestRemainingFirst.Slices(ps), ShortestRemainingFirst.Schedule(ps));
      ShortestRemainingFirst.Schedule(ps)
    case Rr(quantum) =>
      NamedRows(ps, RoundRobin.Slices(ps, quantum), RoundRobin.Schedule(ps, quantum));
      RoundRobin.Schedule(ps, quantum)
  }

  /** Record `i` has at least one row. */
  predicate Runs(out: seq<Slice>, i: int) {
    exists k :: 0 <= k < |out| && out[k].idx == i
  }

  predicate EveryRecordRuns(s: seq<Process>, out: seq<Slice>) {
    forall i :: 0 <= i < |s| ==> Runs(out, i)
  }

  lemma CompleteRuns(s: seq<Process>, out: seq<Slice>)
    requires PositiveBursts(s) && Complete(s, out)
    ensures EveryRecordRuns(s, out)
  {
    forall i | 0 <= i < |s| ensures Runs(out, i) {
      WorkedHasSlice(out, i);
    }
  }

  /** What the rows of each policy are known to satisfy. */
  predicate RowsFit(s: seq<Process>, out: seq<Slice>, policy: Policy) {
    && IndicesIn(out, |s|)
    && EveryRecordRuns(s, out)
    && (PositiveBursts(s) ==> Chained(out) && Complete(s, out))
    && (!policy.Rr? ==> forall k :: 0 <= k < |out| ==> s[out[k].idx].arrival <= out[k].start)
    && (policy.Fcfs? || policy.Sjf? ==>
          forall k :: 0 <= k < |out| ==> out[k].end - out[k].start == s[out[k].idx].burst)
    && (policy.Rr? ==> BackToBack(out))
  }

  lemma FcfsRowsFit(s: seq<Process>)
    ensures RowsFit(s, FirstComeFirstServed.Slices(s), Fcfs)
  {
    var out := FirstComeFirstServed.Slices(s);
    FirstComeFirstServed.RowsOnce(s, out);
    forall i | 0 <= i < |s| ensures Runs(out, i) {
      assert out[i].idx == i;
    }
    forall k | 0 <= k < |out|
      ensures s[out[k].idx].arrival <= out[k].start
      ensures out[k].end - out[k].start == s[out[k].idx].burst
    {
      assert FirstComeFirstServed.RowAt(s, out, k);
    }
    if PositiveBursts(s) {
      FirstComeFirstServed.RowsTiming(s, out);
    }
  }

  lemma FcfsFacts(ps: seq<Process>)
    ensures var s := Records(ps, Fcfs);
            RowsFit(s, Rows(ps, Fcfs), Fcfs) && Dispatch(ps, Fcfs) == ToEntries(s, Rows(ps, Fcfs))
  {
    FcfsRowsFit(Records(ps, Fcfs));
  }

  lemma SjfFacts(ps: seq<Process>)
    requires PositiveBursts(ps)
    ensures RowsFit(ps, Rows(ps, Sjf), Sjf) && Dispatch(ps, Sjf) == ToEntries(ps, Rows(ps, Sjf))
  {
    ShortestJobFirst.SlicesAreGreedy(ps);
    ShortestJobFirst.SlicesTiming(ps);
    CompleteRuns(ps, Rows(ps, Sjf));
  }

  lemma SrtfFacts(ps: seq<Process>)
    requires PositiveBursts(ps)
    ensures RowsFit(ps, Rows(ps, Srtf), Srtf) && Dispatch(ps, Srtf) == ToEntries(ps, Rows(ps, Srtf))
  {
    ShortestRemainingFirst.SlicesAreGreedy(ps);
    ShortestRemainingFirst.SlicesTiming(ps);
    CompleteRuns(ps, Rows(ps, Srtf));
  }

  lemma RrFacts(ps: seq<Process>, quantum: int)
    requires PositiveBursts(ps) && quantum > 0
    ensures RowsFit(ps, Rows(ps, Rr(quantum)), Rr(quantum))
    ensures Dispatch(ps, Rr(quantum)) == ToEntries(ps, Rows(ps, Rr(quantum)))
  {
    var out := Rows(ps, Rr(quantum));
    RoundRobin.SlicesProperties(ps, quantum);
    RoundRobin.RowsNonEmpty(ps, quantum, out);
    CompleteRuns(ps, out);
  }

  lemma RowFacts(ps: seq<Process>, policy: Policy)
    requires Modelled(ps, policy)
    ensures var s := Records(ps, policy);
            && RowsFit(s, Rows(ps, policy), policy)
            && Dispatch(ps, policy) == ToEntries(s, Rows(ps, policy))
  {
    match policy
    case Fcfs => FcfsFacts(ps);
    case Sjf => SjfFacts(ps);
    case Srtf => SrtfFacts(ps);
    case Rr(quantum) => RrFacts(ps, quantum);
  }

  // ---------------------------------------------------------------------------
  // The run: schedule, then metrics
  // ---------------------------------------------------------------------------

  /** A record's looked-up end is the end of one of its own rows, when pids are distinct. */
  lemma EndIsOwnRow(s: seq<Process>, out: seq<Slice>, i: int, lookup: Metrics.Lookup)
    requires DistinctPids(s) && IndicesIn(out, |s|) && 0 <= i < |s|
    requires Metrics.EndOf(ToEntries(s, out), s[i].pid, lookup).Some?
    ensures exists k :: && 0 <= k < |out|
                        && out[k].idx == i
                        && out[k].end == Metrics.EndOf(ToEntries(s, out), s[i].pid, lookup).value
  {
    var sch := ToEntries(s, out);
    var e := Metrics.EndOf(sch, s[i].pid, lookup).value;
    var k :| 0 <= k < |sch| && sch[k].pid == s[i].pid && e == sch[k].end;
    PidMatchesRecord(s, out, i, k);
  }

  /** When every record has a row, every pid is found and the metrics never fail. */
  lemma EveryPidFound(s: seq<Process>, out: seq<Slice>, lookup: Metrics.Lookup)
    requires IndicesIn(out, |s|) && EveryRecordRuns(s, out)
    ensures Metrics.Compute(ToEntries(s, out), s, lookup).Success?
  {
    var sch := ToEntries(s, out);
    forall i | 0 <= i < |s| ensures Metrics.HasEntry(sch, s[i].pid) {
      assert Runs(out, i);
      var k :| 0 <= k < |out| && out[k].idx == i;
      assert sch[k].pid == s[i].pid;
    }
  }

  /** The metrics over a schedule in which every record has an entry. */
  function Measure(schedule: seq<Entry>, s: seq<Process>, lookup: Metrics.Lookup): (o: Outcome)
    requires Metrics.Compute(schedule, s, lookup).Success?
    ensures o.schedule == schedule && o.processes == s
    ensures Metrics.Compute(schedule, s, lookup) == Success(o.report)
    ensures |o.report.perProcess| == |s|
    ensures forall i :: 0 <= i < |s| ==> o.report.perProcess[i].pid == s[i].pid
    ensures o.report.totalWaiting == o.report.totalTurnaround - TotalBurst(s)
  {
    var report := Metrics.Compute(schedule, s, lookup).value;
    Metrics.TotalsRelation(schedule, s, lookup);
    Outcome(schedule, s, report)
  }

  /** `calculateSchedule` with the metrics' lookup as a parameter: nothing
      happens for an empty input; otherwise the policy runs and the metrics are
      computed over its schedule and the records in their order after the run. */
  function Simulate(ps: seq<Process>, policy: Policy, lookup: Metrics.Lookup): (r: Result<Outcome, ScheduleError>)
    requires Modelled(ps, policy)
    ensures r.Failure? <==> ps == []
    ensures r.Success? ==>
              && multiset(r.value.processes) == multiset(ps)
              && |r.value.processes| == |r.value.report.perProcess| == |ps|
              && (forall i :: 0 <= i < |ps| ==> r.value.report.perProcess[i].pid == r.value.processes[i].pid)
              && r.value.report.totalWaiting == r.value.report.totalTurnaround - TotalBurst(r.value.processes)
  {
    if ps == [] then Failure(EmptyInput)
    else
      RowFacts(ps, policy);
      EveryPidFound(Records(ps, policy), Rows(ps, policy), lookup);
      Success(Measure(Dispatch(ps, policy), Records(ps, policy), lookup))
  }

  /** `calculateSchedule` as written: nothing happens for an empty input;
      otherwise the schedule is what the selected function emits, and the
      metrics are `calculateMetrics` over that schedule and the records as
      the run left them, with turnaround running to each pid's first entry. */
  function CalculateSchedule(ps: seq<Process>, policy: Policy): (r: Result<Outcome, ScheduleError>)
    requires Modelled(ps, policy)
    ensures r.Failure? <==> ps == []
    ensures r.Success? ==>
              && r.value.schedule == Dispatch(ps, policy)
              && r.value.processes == Records(ps, policy)
              && Metrics.CalculateMetrics(r.value.schedule, r.value.processes) == Success(r.value.report)
  {
    if ps != [] then SimulateRows(ps, policy, Metrics.FirstEntry); Simulate(ps, policy, Metrics.FirstEntry)
    else Simulate(ps, policy, Metrics.FirstEntry)
  }

  /** `calculateSchedule` with turnaround running to each pid's completion:
      the same run, with the metrics measured to each pid's last entry. */
  function CalculateScheduleAtCompletion(ps: seq<Process>, policy: Policy): (r: Result<Outcome, ScheduleError>)
    requires Modelled(ps, policy)
    ensures r.Failure? <==> ps == []
    ensures r.Success? ==>
              && r.value.schedule == Dispatch(ps, policy)
              && r.value.processes == Records(ps, policy)
              && Metrics.CalculateMetricsAtCompletion(r.value.schedule, r.value.processes) == Success(r.value.report)
  {
    if ps != [] then SimulateRows(ps, policy, Metrics.LastEntry); Simulate(ps, policy, Metrics.LastEntry)
    else Simulate(ps, policy, Metrics.LastEntry)
  }

  /** No process waited a negative time, i.e. each turnaround covers the burst. */
  predicate WaitsNonNegative(o: Outcome)
    requires |o.report.perProcess| == |o.processes|
  {
    forall i :: 0 <= i < |o.processes| ==>
      && o.report.perProcess[i].waiting >= 0
      && o.report.perProcess[i].turnaround >= o.processes[i].burst
  }

  /** The run succeeds and no process waited a negative time. */
  predicate RunWaitsNonNegative(ps: seq<Process>, policy: Policy, lookup: Metrics.Lookup)
    requires Modelled(ps, policy)
  {
    && Simulate(ps, policy, lookup).Success?
    && WaitsNonNegative(Simulate(ps, policy, lookup).value)
  }

  /** The metrics over the rows succeed and no record waits a negative time. */
  predicate MetricsNonNegative(s: seq<Process>, out: seq<Slice>, lookup: Metrics.Lookup)
    requires IndicesIn(out, |s|)
  {
    var r := Metrics.Compute(ToEntries(s, out), s, lookup);
    && r.Success?
    && forall i :: 0 <= i < |s| ==>
         r.value.perProcess[i].waiting >= 0 && r.value.perProcess[i].turnaround >= s[i].burst
  }

  /** Every record runs, each row runs its record's whole burst and none starts before its record arrives. */
  predicate WholeBurstRows(s: seq<Process>, out: seq<Slice>) {
    && DistinctPids(s) && IndicesIn(out, |s|) && EveryRecordRuns(s, out)
    && (forall k :: 0 <= k < |out| ==> s[out[k].idx].arrival <= out[k].start)
    && (forall k :: 0 <= k < |out| ==> out[k].end - out[k].start == s[out[k].idx].burst)
  }

  /** Every record gets its burst in non-overlapping rows, none before the record arrives. */
  predicate CompletionRows(s: seq<Process>, out: seq<Slice>) {
    && DistinctPids(s) && PositiveBursts(s) && IndicesIn(out, |s|) && EveryRecordRuns(s, out)
    && Chained(out) && Complete(s, out)
    && (forall k :: 0 <= k < |out| ==> s[out[k].idx].arrival <= out[k].start)
  }

  /** Rows that each run a whole burst, none before its record arrives, give
      every record a non-negative waiting time, whichever of its entries the
      lookup picks. */
  lemma {:induction false} WholeRunsWaitNonNegative(s: seq<Process>, out: seq<Slice>, lookup: Metrics.Lookup)
    requires WholeBurstRows(s, out)
    ensures MetricsNonNegative(s, out, lookup)
  {
    var sch := ToEntries(s, out);
    EveryPidFound(s, out, lookup);
    var rep := Metrics.Compute(sch, s, lookup).value;
    forall i | 0 <= i < |s|
      ensures rep.perProcess[i].waiting >= 0 && rep.perProcess[i].turnaround >= s[i].burst
    {
      assert Metrics.MeasureOne(sch, s[i], lookup) == Some(rep.perProcess[i]);
      EndIsOwnRow(s, out, i, lookup);
    }
  }

  /** With turnaround measured to the last entry, a record that never runs
      before it arrives waits a non-negative time: its last row ends no earlier
      than its arrival plus all the work it received. */
  lemma CompletionWaitNonNegative(s: seq<Process>, out: seq<Slice>, i: int)
    requires DistinctPids(s) && PositiveBursts(s) && IndicesIn(out, |s|)
    requires Chained(out) && Complete(s, out)
    requires forall k :: 0 <= k < |out| ==> s[out[k].idx].arrival <= out[k].start
    requires 0 <= i < |s|
    requires Metrics.LastEnd(ToEntries(s, out), s[i].pid).Some?
    ensures Metrics.LastEnd(ToEntries(s, out), s[i].pid).value >= s[i].arrival + s[i].burst
  {
    var sch := ToEntries(s, out);
    var e := Metrics.LastEnd(sch, s[i].pid).value;
    var k2 :| && 0 <= k2 < |sch| && sch[k2].pid == s[i].pid && e == sch[k2].end
              && forall j :: k2 < j < |sch| ==> sch[j].pid != s[i].pid;
    LastRowEndsAfterWork(out, i, s[i].arrival);
    var k1 :| EndsLastAfter(out, i, s[i].arrival, k1);
    PidMatchesRecord(s, out, i, k1);
    PidMatchesRecord(s, out, i, k2);
    assert k1 == k2;
  }

  lemma {:induction false} CompletionWaitsNonNegative(s: seq<Process>, out: seq<Slice>)
    requires CompletionRows(s, out)
    ensures MetricsNonNegative(s, out, Metrics.LastEntry)
  {
    var sch := ToEntries(s, out);
    EveryPidFound(s, out, Metrics.LastEntry);
    var rep := Metrics.Compute(sch, s, Metrics.LastEntry).value;
    forall i | 0 <= i < |s|
      ensures rep.perProcess[i].waiting >= 0 && rep.perProcess[i].turnaround >= s[i].burst
    {
      assert Metrics.MeasureOne(sch, s[i], Metrics.LastEntry) == Some(rep.perProcess[i]);
      CompletionWaitNonNegative(s, out, i);
    }
  }

  // ---------------------------------------------------------------------------
  // Properties of a run
  // ---------------------------------------------------------------------------

  lemma RecordsKeepPidsAndBursts(ps: seq<Process>, policy: Policy)
    requires PositiveBursts(ps) && DistinctPids(ps)
    ensures PositiveBursts(Records(ps, policy)) && DistinctPids(Records(ps, policy))
  {
    if policy.Fcfs? {
      FirstComeFirstServed.SortKeepsPositiveBursts(ps);
      FirstComeFirstServed.SortKeepsDistinctPids(ps);
    }
  }

  lemma WorkPerPid(ps: seq<Process>, s: seq<Process>, out: seq<Slice>)
    requires multiset(s) == multiset(ps)
    requires DistinctPids(s) && IndicesIn(out, |s|) && Complete(s, out)
    ensures forall i :: 0 <= i < |ps| ==> PidWork(ToEntries(s, out), ps[i].pid) == ps[i].burst
  {
    forall i | 0 <= i < |ps| ensures PidWork(ToEntries(s, out), ps[i].pid) == ps[i].burst {
      assert ps[i] in multiset(s);
      var j :| 0 <= j < |s| && s[j] == ps[i];
      PidWorkIsWork(s, out, j);
    }
  }

  /** `pid` is the pid of one of the processes. */
  predicate IsInputPid(ps: seq<Process>, pid: int) {
    exists i :: 0 <= i < |ps| && ps[i].pid == pid
  }

  lemma EntriesNamePids(ps: seq<Process>, s: seq<Process>, out: seq<Slice>)
    requires multiset(s) == multiset(ps) && IndicesIn(out, |s|)
    ensures forall k :: 0 <= k < |out| ==> IsInputPid(ps, ToEntries(s, out)[k].pid)
  {
    forall k | 0 <= k < |out| ensures IsInputPid(ps, ToEntries(s, out)[k].pid) {
      assert s[out[k].idx] in multiset(ps);
      var i :| 0 <= i < |ps| && ps[i] == s[out[k].idx];
      assert ToEntries(s, out)[k].pid == ps[i].pid;
    }
  }

  /** The entries never overlap, give every process exactly its burst of
      CPU time, and each names one of the processes. */
  predicate ConservesBursts(ps: seq<Process>, sch: seq<Entry>) {
    && Sequential(sch)
    && (forall i :: 0 <= i < |ps| ==> PidWork(sch, ps[i].pid) == ps[i].burst)
    && (forall k :: 0 <= k < |sch| ==> IsInputPid(ps, sch[k].pid))
  }

  /** Complete, non-overlapping rows over a permutation of the processes with
      distinct pids conserve every burst. */
  lemma EntriesConserve(ps: seq<Process>, s: seq<Process>, out: seq<Slice>)
    requires multiset(s) == multiset(ps) && DistinctPids(s)
    requires IndicesIn(out, |s|) && Chained(out) && Complete(s, out)
    ensures ConservesBursts(ps, ToEntries(s, out))
  {
    EntriesSequential(s, out);
    WorkPerPid(ps, s, out);
    EntriesNamePids(ps, s, out);
  }

  /** Every process receives exactly its burst of CPU time, in entries that
      never overlap, and every entry names one of the processes. */
  lemma BurstConserved(ps: seq<Process>, policy: Policy)
    requires Modelled(ps, policy) && PositiveBursts(ps) && DistinctPids(ps)
    ensures ConservesBursts(ps, Dispatch(ps, policy))
  {
    var s, out := Records(ps, policy), Rows(ps, policy);
    RecordsKeepPidsAndBursts(ps, policy);
    RowFacts(ps, policy);
    EntriesConserve(ps, s, out);
  }

  /** Under FCFS, SJF and SRTF no entry of a process starts before the
      process arrives. */
  lemma ArrivalRespected(ps: seq<Process>, policy: Policy)
    requires Modelled(ps, policy) && DistinctPids(ps) && !policy.Rr?
    ensures forall k, i ::
              (0 <= k < |Dispatch(ps, policy)| && 0 <= i < |ps| && Dispatch(ps, policy)[k].pid == ps[i].pid)
              ==> ps[i].arrival <= Dispatch(ps, policy)[k].start
  {
    var s, out := Records(ps, policy), Rows(ps, policy);
    RowFacts(ps, policy);
    if policy.Fcfs? {
      FirstComeFirstServed.SortKeepsDistinctPids(ps);
    }
    EntriesAfterArrival(ps, s, out);
  }

  /** Rows that start no earlier than their record's arrival give entries that
      start no earlier than their process's arrival. */
  lemma EntriesAfterArrival(ps: seq<Process>, s: seq<Process>, out: seq<Slice>)
    requires multiset(s) == multiset(ps) && DistinctPids(s) && IndicesIn(out, |s|)
    requires forall k :: 0 <= k < |out| ==> s[out[k].idx].arrival <= out[k].start
    ensures forall k, i ::
              (0 <= k < |out| && 0 <= i < |ps| && ToEntries(s, out)[k].pid == ps[i].pid)
              ==> ps[i].arrival <= ToEntries(s, out)[k].start
  {
    var sch := ToEntries(s, out);
    forall k, i | 0 <= k < |out| && 0 <= i < |ps| && sch[k].pid == ps[i].pid
      ensures ps[i].arrival <= sch[k].start
    {
      assert ps[i] in multiset(s);
      var j :| 0 <= j < |s| && s[j] == ps[i];
      PidMatchesRecord(s, out, j, k);
    }
  }

  /** With a repeated pid, FCFS can give that pid an entry before one of its
      records arrives: the record arriving at 0 runs first, and its entry
      carries the pid of the record arriving at 10. */
  lemma SharedPidRunsBeforeArrival(ps: seq<Process>)
    requires ps == [Process(1, 10, 1), Process(1, 0, 1)]
    ensures |Dispatch(ps, Fcfs)| == 2
    ensures Dispatch(ps, Fcfs)[0].pid == ps[0].pid
    ensures Dispatch(ps, Fcfs)[0].start == 0 < ps[0].arrival
  {
    var s := FirstComeFirstServed.SortByArrival(ps);
    assert s == [ps[1], ps[0]] by {
      assert ps[1..] == [ps[1]];
      assert FirstComeFirstServed.SortByArrival([ps[1]]) == [ps[1]];
      assert FirstComeFirstServed.Insert(ps[0], [ps[1]]) == [ps[1], ps[0]];
    }
    FirstComeFirstServed.ScheduleOrder(ps);
    FirstComeFirstServed.ScheduleTiming(ps);
  }

  /** Round Robin queues every record from time 0: a process arriving at 5
      runs at 0. */
  lemma RoundRobinIgnoresArrival()
    ensures var ps := [Process(1, 5, 1)];
            && |Dispatch(ps, Rr(1))| > 0
            && Dispatch(ps, Rr(1))[0].pid == 1
            && Dispatch(ps, Rr(1))[0].start == 0 < ps[0].arrival
  {
    var ps := [Process(1, 5, 1)];
    var out := Rows(ps, Rr(1));
    RrFacts(ps, 1);
    assert Work(out, 0) == 1;
  }

  /** Under FCFS and SJF each process runs its whole burst in one entry that
      starts no earlier than its arrival, so whichever entry the lookup takes,
      no waiting time is negative and every turnaround covers the burst. */
  lemma WholeBurstPoliciesWaitNonNegative(ps: seq<Process>, policy: Policy, lookup: Metrics.Lookup)
    requires policy.Fcfs? || policy.Sjf?
    requires Modelled(ps, policy) && DistinctPids(ps) && ps != []
    ensures RunWaitsNonNegative(ps, policy, lookup)
  {
    WholeBurstRowsFit(ps, policy);
    WholeRunsWaitNonNegative(Records(ps, policy), Rows(ps, policy), lookup);
    WaitsFromRows(ps, policy, lookup, Records(ps, policy), Rows(ps, policy));
  }

  /** A run waits non-negatively when the metrics over its rows do. */
  lemma WaitsFromRows(ps: seq<Process>, policy: Policy, lookup: Metrics.Lookup, s: seq<Process>, out: seq<Slice>)
    requires Modelled(ps, policy) && ps != []
    requires s == Records(ps, policy) && out == Rows(ps, policy) && IndicesIn(out, |s|)
    requires MetricsNonNegative(s, out, lookup)
    ensures RunWaitsNonNegative(ps, policy, lookup)
  {
    SimulateRows(ps, policy, lookup);
  }

  /** The rows of FCFS and SJF: each runs its record's whole burst, never before it arrives. */
  lemma WholeBurstRowsFit(ps: seq<Process>, policy: Policy)
    requires policy.Fcfs? || policy.Sjf?
    requires Modelled(ps, policy) && DistinctPids(ps)
    ensures WholeBurstRows(Records(ps, policy), Rows(ps, policy))
  {
    RowFacts(ps, policy);
    if policy.Fcfs? {
      FirstComeFirstServed.SortKeepsDistinctPids(ps);
    }
  }

  /** The rows of a policy that never runs a process before it arrives. */
  lemma CompletionRowsFit(ps: seq<Process>, policy: Policy)
    requires Modelled(ps, policy) && PositiveBursts(ps) && DistinctPids(ps)
    requires policy.Rr? ==> forall i :: 0 <= i < |ps| ==> ps[i].arrival <= 0
    ensures CompletionRows(Records(ps, policy), Rows(ps, policy))
  {
    var out := Rows(ps, policy);
    RowFacts(ps, policy);
    RecordsKeepPidsAndBursts(ps, policy);
    ChainedStartsNonNegative(out);
  }

  /** Measured to each process's completion, waiting times are never
      negative under FCFS, SJF and SRTF, and under Round Robin when every
      process has arrived by time 0. */
  lemma CompletionPoliciesWaitNonNegative(ps: seq<Process>, policy: Policy)
    requires Modelled(ps, policy) && DistinctPids(ps) && ps != []
    requires policy.Rr? ==> forall i :: 0 <= i < |ps| ==> ps[i].arrival <= 0
    ensures RunWaitsNonNegative(ps, policy, Metrics.LastEntry)
  {
    if policy.Fcfs? {
      WholeBurstPoliciesWaitNonNegative(ps, policy, Metrics.LastEntry);
    } else {
      CompletionRowsFit(ps, policy);
      CompletionWaitsNonNegative(Records(ps, policy), Rows(ps, policy));
      WaitsFromRows(ps, policy, Metrics.LastEntry, Records(ps, policy), Rows(ps, policy));
    }
  }

  // ---------------------------------------------------------------------------
  // The first-entry lookup on split processes
  // ---------------------------------------------------------------------------

  /** A schedule whose first entry for the only process ends at 1, although
      the process needs 2, gives that process a waiting time of -1 when the
      turnaround runs to the first entry. */
  lemma FirstEntryOfSplitProcess(out: seq<Slice>)
    requires IndicesIn(out, 1) && |out| > 0 && out[0] == Slice(0, 0, 1)
    ensures var r := Metrics.Compute(ToEntries([Process(1, 0, 2)], out), [Process(1, 0, 2)], Metrics.FirstEntry);
            r.Success? && r.value.perProcess[0] == Metrics.ProcessMetrics(1, 1, -1)
  {
    var ps := [Process(1, 0, 2)];
    var sch := ToEntries(ps, out);
    assert sch[0] == Entry(1, 0, 1);
    assert Metrics.FirstEnd(sch, 1) == Some(1);
    assert Metrics.MeasureOne(sch, ps[0], Metrics.FirstEntry) == Some(Metrics.ProcessMetrics(1, 1, -1));
  }

  /** Round Robin with quantum 1 runs a process of burst 2 arriving at 0 over
      [0, 1) first. */
  lemma RoundRobinSplits(ps: seq<Process>)
    requires ps == [Process(1, 0, 2)]
    ensures var out := Rows(ps, Rr(1));
            IndicesIn(out, 1) && |out| > 0 && out[0] == Slice(0, 0, 1)
  {
    RoundRobin.SlicesProperties(ps, 1);
    RoundRobinRounds.SlicesFollowRounds(ps, 1);
    var first := RoundRobinRounds.Round(ps, 1, 0, 0);
    assert first == [RoundRobinRounds.Turn(0, 1)] + RoundRobinRounds.Round(ps, 1, 0, 1);
    var turns := RoundRobinRounds.Rounds(ps, 1, 0);
    assert turns == first + RoundRobinRounds.Rounds(ps, 1, 1);
    assert turns[0] == RoundRobinRounds.Turn(0, 1);
  }

  /** SRTF runs a process of burst 2 arriving at 0 over [0, 1) first. */
  lemma SrtfSplits()
    ensures var out := Rows([Process(1, 0, 2)], Srtf);
            IndicesIn(out, 1) && |out| > 0 && out[0] == Slice(0, 0, 1)
  {
    var ps := [Process(1, 0, 2)];
    ShortestRemainingFirst.SlicesAreGreedy(ps);
    PreemptiveFirstRow(ps, Rows(ps, Srtf));
  }

  /** The first greedy preemptive row for a lone process arriving at 0 with burst 2. */
  lemma PreemptiveFirstRow(ps: seq<Process>, out: seq<Slice>)
    requires ps == [Process(1, 0, 2)]
    requires IndicesIn(out, 1) && GreedySpec.IsGreedySchedule(ps, GreedySpec.Preemptive, out)
    ensures |out| > 0 && out[0] == Slice(0, 0, 1)
  {
    assert Work(out, 0) == 2;
    assert out[..0] == [];
    assert GreedySpec.GreedyStep(ps, GreedySpec.Preemptive, [], out[0]);
    assert ReadyAt(ps, [], 0, 0);
  }

  /** A non-empty run is the metrics over the policy's rows. */
  lemma SimulateRows(ps: seq<Process>, policy: Policy, lookup: Metrics.Lookup)
    requires Modelled(ps, policy) && ps != []
    ensures var s, out := Records(ps, policy), Rows(ps, policy);
            && IndicesIn(out, |s|)
            && Simulate(ps, policy, lookup).value.schedule == ToEntries(s, out)
            && Simulate(ps, policy, lookup).value.processes == s
            && Metrics.Compute(ToEntries(s, out), s, lookup).Success?
            && Simulate(ps, policy, lookup).value.report
                 == Metrics.Compute(ToEntries(s, out), s, lookup).value
  {
    RowFacts(ps, policy);
    EveryPidFound(Records(ps, policy), Rows(ps, policy), lookup);
  }

  /** A policy that runs the lone process of burst 2 over [0, 1) first has
      its first-entry waiting time come out as -1. */
  lemma SplitWaitsNegative(ps: seq<Process>, policy: Policy)
    requires ps == [Process(1, 0, 2)] && Modelled(ps, policy)
    requires IndicesIn(Rows(ps, policy), 1) && |Rows(ps, policy)| > 0 && Rows(ps, policy)[0] == Slice(0, 0, 1)
    ensures CalculateSchedule(ps, policy).Success?
    ensures |CalculateSchedule(ps, policy).value.report.perProcess| == 1
    ensures CalculateSchedule(ps, policy).value.report.perProcess[0] == Metrics.ProcessMetrics(1, 1, -1)
  {
    SimulateRows(ps, policy, Metrics.FirstEntry);
    FirstEntryOfSplitProcess(Rows(ps, policy));
  }

  /** Measured to the first entry, as `calculateMetrics` does, a process that
      Round Robin or SRTF splits over several entries is charged a turnaround
      shorter than its burst: a single process arriving at 0 with burst 2 gets
      turnaround 1 and waiting time -1 under Round Robin with quantum 1. */
  lemma FirstEntryWaitingNegative()
    ensures var ps := [Process(1, 0, 2)];
            && CalculateSchedule(ps, Rr(1)).Success?
            && CalculateSchedule(ps, Rr(1)).value.report.perProcess[0] == Metrics.ProcessMetrics(1, 1, -1)
  {
    RoundRobinSplits([Process(1, 0, 2)]);
    SplitWaitsNegative([Process(1, 0, 2)], Rr(1));
  }

  /** The same under SRTF. */
  lemma FirstEntryWaitingNegativeSrtf()
    ensures var ps := [Process(1, 0, 2)];
            && CalculateSchedule(ps, Srtf).Success?
            && CalculateSchedule(ps, Srtf).value.report.perProcess[0] == Metrics.ProcessMetrics(1, 1, -1)
  {
    SrtfSplits();
    SplitWaitsNegative([Process(1, 0, 2)], Srtf);
  }

  // ---------------------------------------------------------------------------
  // Round Robin with a quantum covering every burst is FCFS
  // ---------------------------------------------------------------------------

  /** Rows that run records 0, 1, ... once each, in order, each for its whole
      burst, back to back from time 0. */
  predicate InOrderBackToBack(ps: seq<Process>, out: seq<Slice>) {
    && |out| == |ps|
    && forall k :: 0 <= k < |out| ==>
         && out[k].idx == k
         && out[k].start == PrevEnd(out[..k])
         && out[k].end == out[k].start + ps[k].burst
  }

  /** Two in-order schedules that agree before row n - 1 agree on it too. */
  lemma InOrderStep(ps: seq<Process>, a: seq<Slice>, b: seq<Slice>, n: nat)
    requires InOrderBackToBack(ps, a) && InOrderBackToBack(ps, b) && 0 < n <= |ps|
    requires a[..n - 1] == b[..n - 1]
    ensures a[..n] == b[..n]
  {
    assert a[n - 1].start == PrevEnd(a[..n - 1]);
    assert b[n - 1].start == PrevEnd(b[..n - 1]);
    assert a[n - 1] == b[n - 1];
    assert a[..n] == a[..n - 1] + [a[n - 1]];
    assert b[..n] == b[..n - 1] + [b[n - 1]];
  }

  lemma {:induction false} InOrderPrefixesAgree(ps: seq<Process>, a: seq<Slice>, b: seq<Slice>, n: nat)
    requires InOrderBackToBack(ps, a) && InOrderBackToBack(ps, b) && n <= |ps|
    ensures a[..n] == b[..n]
  {
    if n > 0 {
      InOrderPrefixesAgree(ps, a, b, n - 1);
      InOrderStep(ps, a, b, n);
    }
  }

  /** There is only one such schedule. */
  lemma InOrderUnique(ps: seq<Process>, a: seq<Slice>, b: seq<Slice>)
    requires InOrderBackToBack(ps, a) && InOrderBackToBack(ps, b)
    ensures a == b
  {
    InOrderPrefixesAgree(ps, a, b, |ps|);
    assert a[..|ps|] == a && b[..|ps|] == b;
  }

  /** Row k of a Round Robin schedule in which row m runs record m is record k's whole burst. */
  lemma RoundRobinRowInOrder(ps: seq<Process>, quantum: int, out: seq<Slice>, k: nat)
    requires quantum > 0 && k < |out| && k < |ps| && ps[k].burst <= quantum
    requires forall m :: 0 <= m < |out| ==> out[m].idx == m
    requires RoundRobin.RoundRobinRow(ps, quantum, out[..k], out[k])
    ensures out[k].start == PrevEnd(out[..k]) && out[k].end == out[k].start + ps[k].burst
  {
    NoRowNoWork(out[..k], k);
  }

  lemma RoundRobinInOrder(ps: seq<Process>, quantum: int)
    requires PositiveBursts(ps) && quantum > 0
    requires forall i :: 0 <= i < |ps| ==> ps[i].burst <= quantum
    ensures InOrderBackToBack(ps, RoundRobin.Slices(ps, quantum))
  {
    var out := RoundRobin.Slices(ps, quantum);
    RoundRobin.OneTurnEach(ps, quantum);
    RoundRobin.SlicesProperties(ps, quantum);
    forall k | 0 <= k < |out|
      ensures out[k].start == PrevEnd(out[..k]) && out[k].end == out[k].start + ps[k].burst
    {
      RoundRobinRowInOrder(ps, quantum, out, k);
    }
  }

  lemma FcfsInOrder(s: seq<Process>)
    requires PositiveBursts(s)
    requires forall i :: 0 <= i < |s| ==> s[i].arrival <= 0
    ensures InOrderBackToBack(s, FirstComeFirstServed.Slices(s))
  {
    var out := FirstComeFirstServed.Slices(s);
    FirstComeFirstServed.RowsOnce(s, out);
    FirstComeFirstServed.RowsTiming(s, out);
    ChainedStartsNonNegative(out);
    forall k | 0 <= k < |out|
      ensures out[k].start == PrevEnd(out[..k]) && out[k].end == out[k].start + s[k].burst
    {
      assert FirstComeFirstServed.RowAt(s, out, k);
      assert k > 0 ==> out[..k][k - 1] == out[k - 1];
    }
  }

  lemma RoundRobinRowsAreFcfsRows(ps: seq<Process>, quantum: int)
    requires PositiveBursts(ps) && quantum > 0
    requires forall i :: 0 <= i < |ps| ==> ps[i].burst <= quantum && ps[i].arrival <= 0
    requires FirstComeFirstServed.SortedByArrival(ps)
    ensures Records(ps, Fcfs) == ps
    ensures Rows(ps, Rr(quantum)) == Rows(ps, Fcfs)
  {
    FirstComeFirstServed.SortedIsFixedPoint(ps);
    RoundRobinInOrder(ps, quantum);
    FcfsInOrder(ps);
    InOrderUnique(ps, Rows(ps, Rr(quantum)), Rows(ps, Fcfs));
  }

  /** When the records are listed in arrival order, all have arrived by time
      0 and no burst exceeds the quantum, Round Robin never requeues and
      produces exactly the FCFS schedule and metrics. */
  lemma RoundRobinMatchesFcfs(ps: seq<Process>, quantum: int, lookup: Metrics.Lookup)
    requires PositiveBursts(ps) && quantum > 0
    requires forall i :: 0 <= i < |ps| ==> ps[i].burst <= quantum && ps[i].arrival <= 0
    requires FirstComeFirstServed.SortedByArrival(ps)
    ensures Dispatch(ps, Rr(quantum)) == Dispatch(ps, Fcfs)
    ensures Simulate(ps, Rr(quantum), lookup) == Simulate(ps, Fcfs, lookup)
  {
    RoundRobinRowsAreFcfsRows(ps, quantum);
    RowFacts(ps, Fcfs);
    RowFacts(ps, Rr(quantum));
    assert Dispatch(ps, Rr(quantum)) == Dispatch(ps, Fcfs);
    assert Records(ps, Rr(quantum)) == Records(ps, Fcfs);
  }
}
