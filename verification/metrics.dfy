/**
  Turnaround and waiting times computed from a schedule. For every process,
  its turnaround is the end of its schedule entry minus its arrival, and its
  waiting time is the turnaround minus its burst; both are also totalled.
  The source looks up the FIRST entry with the process's pid; the completion
  time is the end of its LAST entry. Both lookups are modelled.
 */
module Metrics {
  import opened Wrappers
  import opened Processes

  /** Which entry of a pid the turnaround is measured to. */
  datatype Lookup = FirstEntry | LastEntry

  datatype ProcessMetrics = ProcessMetrics(pid: int, turnaround: int, waiting: int)

  datatype Report = Report(perProcess: seq<ProcessMetrics>, totalWaiting: int, totalTurnaround: int)

  /** The lookup found no entry for `pid` (in the source, reading `.end` of `undefined` throws). */
  datatype MetricsError = NoEntryFor(pid: int)

  predicate HasEntry(schedule: seq<Entry>, pid: int) {
    exists k :: 0 <= k < |schedule| && schedule[k].pid == pid
  }

  /** `schedule.find(s => s.pid === pid).end`. */
  function FirstEnd(schedule: seq<Entry>, pid: int): (r: Option<int>)
    ensures r.None? <==> !HasEntry(schedule, pid)
    ensures r.Some? ==> exists k :: && 0 <= k < |schedule|
                                    && schedule[k].pid == pid
                                    && r.value == schedule[k].end
                                    && forall j :: 0 <= j < k ==> schedule[j].pid != pid
  {
    if schedule == [] then None
    else if schedule[0].pid == pid then Some(schedule[0].end)
    else
      var r := FirstEnd(schedule[1..], pid);
      assert forall k :: 0 < k < |schedule| ==> schedule[k] == schedule[1..][k - 1];
      assert HasEntry(schedule[1..], pid) ==> HasEntry(schedule, pid);
      r
  }

  /** The end of the last entry of `pid`: when the process completed. */
  function LastEnd(schedule: seq<Entry>, pid: int): (r: Option<int>)
    ensures r.None? <==> !HasEntry(schedule, pid)
    ensures r.Some? ==> exists k :: && 0 <= k < |schedule|
                                    && schedule[k].pid == pid
                                    && r.value == schedule[k].end
                                    && forall j :: k < j < |schedule| ==> schedule[j].pid != pid
  {
    if schedule == [] then None
    else
      var n := |schedule| - 1;
      if schedule[n].pid == pid then Some(schedule[n].end)
      else
        var r := LastEnd(schedule[..n], pid);
        assert forall k :: 0 <= k < n ==> schedule[k] == schedule[..n][k];
        assert HasEntry(schedule[..n], pid) ==> HasEntry(schedule, pid);
        r
  }

  /** The end of the entry of `pid` the lookup selects, which is one of its entries. */
  function EndOf(schedule: seq<Entry>, pid: int, lookup: Lookup): (r: Option<int>)
    ensures r.None? <==> !HasEntry(schedule, pid)
    ensures r.Some? ==> exists k :: && 0 <= k < |schedule|
                                    && schedule[k].pid == pid
                                    && r.value == schedule[k].end
  {
    match lookup
    case FirstEntry => FirstEnd(schedule, pid)
    case LastEntry => LastEnd(schedule, pid)
  }

  function TotalTurnaround(ms: seq<ProcessMetrics>): int {
    if ms == [] then 0 else ms[0].turnaround + TotalTurnaround(ms[1..])
  }

  lemma TotalBurstCons(ps: seq<Process>)
    requires ps != []
    ensures TotalBurst(ps) == ps[0].burst + TotalBurst(ps[1..])
  {
    SumCons(Bursts(ps));
    assert Bursts(ps)[1..] == Bursts(ps[1..]);
  }

  /** One iteration of the `processes.forEach` of `calculateMetrics`: the
      turnaround is the looked-up end minus the arrival, the waiting time is
      the turnaround minus the burst. */
  function MeasureOne(schedule: seq<Entry>, p: Process, lookup: Lookup): (r: Option<ProcessMetrics>)
    ensures r.None? <==> !HasEntry(schedule, p.pid)
    ensures r.Some? ==> && r.value.pid == p.pid
                        && EndOf(schedule, p.pid, lookup) == Some(p.arrival + r.value.turnaround)
                        && r.value.waiting == r.value.turnaround - p.burst
  {
    match EndOf(schedule, p.pid, lookup)
    case None => None
    case Some(end) => Some(ProcessMetrics(p.pid, end - p.arrival, end - p.arrival - p.burst))
  }

  function TotalWaiting(ms: seq<ProcessMetrics>): int {
    if ms == [] then 0 else ms[0].waiting + TotalWaiting(ms[1..])
  }

  /** The `processes.forEach` of `calculateMetrics` with the chosen lookup. It
      fails exactly when some process has no entry, naming the first such
      process in input order; otherwise it measures every process in order and
      totals waiting and turnaround times. */
  function Compute(schedule: seq<Entry>, ps: seq<Process>, lookup: Lookup): (r: Result<Report, MetricsError>)
    ensures r.Success? <==> forall i :: 0 <= i < |ps| ==> HasEntry(schedule, ps[i].pid)
    ensures r.Failure? ==> exists i :: && 0 <= i < |ps|
                                      && r.error == NoEntryFor(ps[i].pid)
                                      && !HasEntry(schedule, ps[i].pid)
                                      && forall j :: 0 <= j < i ==> HasEntry(schedule, ps[j].pid)
    ensures r.Success? ==>
              && |r.value.perProcess| == |ps|
              && (forall i :: 0 <= i < |ps| ==> MeasureOne(schedule, ps[i], lookup) == Some(r.value.perProcess[i]))
              && r.value.totalTurnaround == TotalTurnaround(r.value.perProcess)
              && r.value.totalWaiting == TotalWaiting(r.value.perProcess)
  {
    if ps == [] then Success(Report([], 0, 0))
    else
      var p := ps[0];
      assert forall i :: 0 < i < |ps| ==> ps[i] == ps[1..][i - 1];
      match MeasureOne(schedule, p, lookup)
      case None => Failure(NoEntryFor(p.pid))
      case Some(m) =>
        match Compute(schedule, ps[1..], lookup)
        case Failure(e) => Failure(e)
        case Success(rest) =>
          var ms := [m] + rest.perProcess;
          assert ms[1..] == rest.perProcess;
          Success(Report(ms, m.waiting + rest.totalWaiting, m.turnaround + rest.totalTurnaround))
  }

  /** Per process waiting = turnaround - burst, so in total the waiting time
      is the total turnaround minus the total burst. */
  lemma {:induction false} TotalsRelation(schedule: seq<Entry>, ps: seq<Process>, lookup: Lookup)
    requires Compute(schedule, ps, lookup).Success?
    ensures var rep := Compute(schedule, ps, lookup).value;
            rep.totalWaiting == rep.totalTurnaround - TotalBurst(ps)
  {
    if ps != [] {
      var rep := Compute(schedule, ps, lookup).value;
      TotalsRelation(schedule, ps[1..], lookup);
      TotalBurstCons(ps);
      var m := MeasureOne(schedule, ps[0], lookup).value;
      var rest := Compute(schedule, ps[1..], lookup).value;
      assert rep.perProcess == [m] + rest.perProcess;
    }
  }

  /** What a successful run reports about each process, whichever the lookup. */
  lemma Measured(schedule: seq<Entry>, ps: seq<Process>, lookup: Lookup, rep: Report)
    requires Compute(schedule, ps, lookup) == Success(rep)
    ensures |rep.perProcess| == |ps|
    ensures forall i :: 0 <= i < |ps| ==>
              && rep.perProcess[i].pid == ps[i].pid
              && EndOf(schedule, ps[i].pid, lookup) == Some(ps[i].arrival + rep.perProcess[i].turnaround)
              && rep.perProcess[i].waiting == rep.perProcess[i].turnaround - ps[i].burst
  {
    forall i | 0 <= i < |ps|
      ensures rep.perProcess[i].pid == ps[i].pid
      ensures EndOf(schedule, ps[i].pid, lookup) == Some(ps[i].arrival + rep.perProcess[i].turnaround)
      ensures rep.perProcess[i].waiting == rep.perProcess[i].turnaround - ps[i].burst
    {
      assert MeasureOne(schedule, ps[i], lookup) == Some(rep.perProcess[i]);
    }
  }

  /** `calculateMetrics` as written: it fails on the first process without
      an entry; otherwise each process's turnaround runs from its arrival to
      the end of the FIRST entry with its pid, its waiting time is that less
      its burst. */
  function CalculateMetrics(schedule: seq<Entry>, ps: seq<Process>): (r: Result<Report, MetricsError>)
    ensures r.Success? <==> forall i :: 0 <= i < |ps| ==> HasEntry(schedule, ps[i].pid)
    ensures r.Success? ==>
              && |r.value.perProcess| == |ps|
              && (forall i :: 0 <= i < |ps| ==>
                    && r.value.perProcess[i].pid == ps[i].pid
                    && FirstEnd(schedule, ps[i].pid) == Some(ps[i].arrival + r.value.perProcess[i].turnaround)
                    && r.value.perProcess[i].waiting == r.value.perProcess[i].turnaround - ps[i].burst)
  {
    var r := Compute(schedule, ps, FirstEntry);
    if r.Success? then Measured(schedule, ps, FirstEntry, r.value); r else r
  }

  /** Turnaround measured to each process's completion: the same, with the
      end of the LAST entry of each pid. */
  function CalculateMetricsAtCompletion(schedule: seq<Entry>, ps: seq<Process>): (r: Result<Report, MetricsError>)
    ensures r.Success? <==> forall i :: 0 <= i < |ps| ==> HasEntry(schedule, ps[i].pid)
    ensures r.Success? ==>
              && |r.value.perProcess| == |ps|
              && (forall i :: 0 <= i < |ps| ==>
                    && r.value.perProcess[i].pid == ps[i].pid
                    && LastEnd(schedule, ps[i].pid) == Some(ps[i].arrival + r.value.perProcess[i].turnaround)
                    && r.value.perProcess[i].waiting == r.value.perProcess[i].turnaround - ps[i].burst)
  {
    var r := Compute(schedule, ps, LastEntry);
    if r.Success? then Measured(schedule, ps, LastEntry, r.value); r else r
  }
}
